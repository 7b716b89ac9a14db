/** A host's queue of campaigns: ticks that run under a lock and can die before any write. */
module CampaignQueue {
  import opened HostSplits
  import opened Runs
  import opened SeedRanges
  import opened Wrappers

  datatype QueueState = Queued | Running | Done | Failed | Cancelled

  /** A queue entry as it stands on disk. `hasCommit` is whether it names a commit to stage. */
  datatype Entry = Entry(
    host: string, hasCommit: bool, frozen: Frozen, phases: nat, phase: nat, state: QueueState,
    attempts: nat, maxAttempts: int)

  datatype File = Unreadable | Readable(entry: Entry)

  function NewEntry(campaign: Campaign, host: string, maxAttempts: int): Entry {
    Entry(host, true, Freeze(campaign, host), |campaign.phases|, 0, Queued, 0, maxAttempts)
  }

  /** One attempt spent; the last one leaves the entry failed. */
  function FailOrRequeue(e: Entry): Entry {
    e.(attempts := e.attempts + 1, state := if e.attempts + 1 >= e.maxAttempts then Failed else Queued)
  }

  /** A phase that exited 0, of a declaration of `declared` phases. */
  function FinishPhase(e: Entry, declared: nat): Entry {
    e.(phase := e.phase + 1, attempts := 0, state := if e.phase + 1 >= declared then Done else Queued)
  }

  /** A phase with no seeds on this host. */
  function SkipPhase(e: Entry, declared: nat): Entry {
    e.(phase := e.phase + 1, state := if e.phase + 1 >= declared then Done else Queued)
  }

  // -- A tick, step by step ---------------------------------------------------------------------

  datatype Args = Args(dryRun: bool, noStage: bool, host: Option<string>)

  /** Where the tick that holds the lock stands; `Idle` when the lock is free. `count` files were in the
      queue when the tick read it. */
  datatype Pc =
    | Idle
    | Recovering(next: nat, count: nat, restarted: bool)
    | Picking(count: nat, restarted: bool)
    | Chosen(at: nat, restarted: bool)
    | Staging(at: nat, restarted: bool)
    | Loading(at: nat)
    | Entering(at: nat, declared: nat)
    | Executing(at: nat, declared: nat)

  datatype Checkout = Unknown | AtCommit | Elsewhere

  /** What the world answers in a step; each step reads its own part. */
  datatype Answers = Answers(
    checkout: Checkout, built: bool, refused: bool, staged: bool, restarts: bool, loads: bool, declared: nat,
    configured: bool, blocked: bool, code: int)

  /** What happened, oldest first. A phase of a dry run does not start. */
  datatype Event = Started(file: nat, phase: nat) | Exited(file: nat, phase: nat, code: int) | Skipped(file: nat, phase: nat)

  datatype Machine = Machine(files: seq<File>, pc: Pc, args: Args, history: seq<Event>)

  datatype Action = StartTick(args: Args) | Advance(answers: Answers) | Kill | Enqueue(entry: Entry)

  predicate InState(files: seq<File>, i: nat, state: QueueState) {
    i < |files| && files[i].Readable? && files[i].entry.state == state
  }

  predicate Ready(files: seq<File>, i: nat, host: Option<string>) {
    InState(files, i, Queued) && (host.None? || files[i].entry.host == host.value)
  }

  /** The lowest-numbered entry a tick may run, among the first `count`. */
  function FirstReady(files: seq<File>, count: nat, host: Option<string>, from: nat): (at: Option<nat>)
    requires from <= count
    ensures at.Some? ==> from <= at.value < count && Ready(files, at.value, host)
    ensures at.Some? ==> forall i :: from <= i < at.value ==> !Ready(files, i, host)
    ensures at.None? ==> forall i :: from <= i < count ==> !Ready(files, i, host)
    decreases count - from
  {
    if from == count then None else if Ready(files, from, host) then Some(from) else FirstReady(files, count, host, from + 1)
  }

  /** The entry under work, where there is one. */
  predicate Placed(m: Machine) {
    match m.pc
    case Idle => true
    case Recovering(next, count, _) => next <= count <= |m.files|
    case Picking(count, _) => count <= |m.files|
    case Chosen(at, _) => InState(m.files, at, Queued)
    case Staging(at, _) => InState(m.files, at, Running)
    case Loading(at) => InState(m.files, at, Queued)
    case Entering(at, _) => InState(m.files, at, Queued)
    case Executing(at, _) => InState(m.files, at, Running)
  }

  /** The entry rewritten on disk, and the tick's next place. */
  function Write(m: Machine, at: nat, e: Entry, pc: Pc): Machine
    requires at < |m.files|
  {
    m.(files := m.files[at := Readable(e)], pc := pc)
  }

  function Fail(m: Machine, at: nat): Machine
    requires at < |m.files| && m.files[at].Readable?
  {
    Write(m, at, FailOrRequeue(m.files[at].entry), Idle)
  }

  function Note(m: Machine, event: Event): Machine {
    m.(history := m.history + [event])
  }

  /** One entry of the queue looked at: left running means its tick died. */
  function RecoverStep(m: Machine): Machine
    requires m.pc.Recovering? && Placed(m)
  {
    var k := m.pc.next;
    if k == m.pc.count then m.(pc := Picking(m.pc.count, m.pc.restarted))
    else
      var on := Recovering(k + 1, m.pc.count, m.pc.restarted);
      if InState(m.files, k, Running) then Write(m, k, FailOrRequeue(m.files[k].entry), on) else m.(pc := on)
  }

  function PickStep(m: Machine): Machine
    requires m.pc.Picking?
  {
    var at := FirstReady(m.files, m.pc.count, m.args.host, 0);
    if at.None? then m.(pc := Idle) else m.(pc := Chosen(at.value, m.pc.restarted))
  }

  /** The checkout compared with the entry's commit: kept, moved, or a reason to spend an attempt. */
  function StageStep(m: Machine, a: Answers): Machine
    requires m.pc.Chosen? && Placed(m)
  {
    var at, e := m.pc.at, m.files[m.pc.at].entry;
    match a.checkout
    case Unknown => Fail(m, at)
    case AtCommit =>
      if !e.hasCommit || m.args.noStage || m.args.dryRun || a.built then m.(pc := Loading(at)) else Fail(m, at)
    case Elsewhere =>
      if !e.hasCommit || m.args.noStage || a.refused then Fail(m, at)
      else Write(m, at, e.(state := Running), Staging(at, m.pc.restarted))
  }

  /** A staging that moved the tick's own scripts restarts it once, the lock still held. */
  function StagedStep(m: Machine, a: Answers): Machine
    requires m.pc.Staging? && Placed(m)
  {
    var at, e := m.pc.at, m.files[m.pc.at].entry;
    if m.args.dryRun then Write(m, at, e.(state := Queued), Idle)
    else if !a.staged then Fail(m, at)
    else
      Write(m, at, e.(state := Queued),
            if a.restarts && !m.pc.restarted then Recovering(0, |m.files|, true) else Loading(at))
  }

  function LoadStep(m: Machine, a: Answers): Machine
    requires m.pc.Loading? && Placed(m)
  {
    var at := m.pc.at;
    if !a.loads || (!m.args.dryRun && !a.configured) then Fail(m, at) else m.(pc := Entering(at, a.declared))
  }

  function EnterStep(m: Machine, a: Answers): Machine
    requires m.pc.Entering? && Placed(m)
  {
    var at, e, declared := m.pc.at, m.files[m.pc.at].entry, m.pc.declared;
    if e.phase >= declared then Write(m, at, e.(state := Done), Idle)
    else if EntryPhaseSeeds(e.frozen, e.phase) == "" then
      Note(Write(m, at, SkipPhase(e, declared), Idle), Skipped(at, e.phase))
    else if a.blocked && !m.args.dryRun then Fail(m, at)
    else
      var running := Write(m, at, e.(state := Running), Executing(at, declared));
      if m.args.dryRun then running else Note(running, Started(at, e.phase))
  }

  function ExitStep(m: Machine, a: Answers): Machine
    requires m.pc.Executing? && Placed(m)
  {
    var at, e := m.pc.at, m.files[m.pc.at].entry;
    if m.args.dryRun then Write(m, at, e.(state := Queued), Idle)
    else if a.code != 0 then Note(Fail(m, at), Exited(at, e.phase, a.code))
    else Note(Write(m, at, FinishPhase(e, m.pc.declared), Idle), Exited(at, e.phase, 0))
  }

  function AdvanceStep(m: Machine, a: Answers): Machine
    requires !m.pc.Idle? && Placed(m)
  {
    match m.pc
    case Recovering(_, _, _) => RecoverStep(m)
    case Picking(_, _) => PickStep(m)
    case Chosen(_, _) => StageStep(m, a)
    case Staging(_, _) => StagedStep(m, a)
    case Loading(_) => LoadStep(m, a)
    case Entering(_, _) => EnterStep(m, a)
    case Executing(_, _) => ExitStep(m, a)
  }

  /** Files are appended, never removed: a new entry gets a number above all others. */
  predicate StepTo(m: Machine, action: Action, next: Machine) {
    match action
    case StartTick(args) => m.pc.Idle? && next == m.(pc := Recovering(0, |m.files|, false), args := args)
    case Advance(a) => !m.pc.Idle? && Placed(m) && next == AdvanceStep(m, a)
    case Kill => !m.pc.Idle? && next == m.(pc := Idle)
    case Enqueue(e) => next == m.(files := m.files + [Readable(e)])
  }

  // -- At most one entry runs -------------------------------------------------------------------

  /** Only file `i`, if any, is running on disk. */
  ghost predicate OnlyRuns(files: seq<File>, i: nat) {
    forall k: nat :: InState(files, k, Running) ==> k == i
  }

  ghost predicate NoneRuns(files: seq<File>) {
    forall k: nat :: !InState(files, k, Running)
  }

  ghost predicate OneRuns(files: seq<File>) {
    exists i :: OnlyRuns(files, i)
  }

  ghost predicate NoneRunsBefore(files: seq<File>, n: nat) {
    forall k: nat :: k < n ==> !InState(files, k, Running)
  }

  ghost predicate NoneRunsFrom(files: seq<File>, n: nat) {
    forall k: nat :: n <= k ==> !InState(files, k, Running)
  }

  /** Whatever the tick does, the disk shows at most one running entry, and the tick knows which. */
  ghost predicate Exclusive(m: Machine) {
    && Placed(m) && OneRuns(m.files)
    && match m.pc
       case Idle => true
       case Recovering(next, count, _) => NoneRunsBefore(m.files, next) && NoneRunsFrom(m.files, count)
       case Picking(_, _) => NoneRuns(m.files)
       case Chosen(_, _) => NoneRuns(m.files)
       case Loading(_) => NoneRuns(m.files)
       case Entering(_, _) => NoneRuns(m.files)
       case Staging(at, _) => OnlyRuns(m.files, at)
       case Executing(at, _) => OnlyRuns(m.files, at)
  }

  lemma WriteRuns(files: seq<File>, at: nat, e: Entry)
    requires at < |files|
    ensures var after := files[at := Readable(e)];
      && (NoneRuns(files) && e.state != Running ==> NoneRuns(after))
      && (NoneRuns(files) ==> OnlyRuns(after, at))
      && (OnlyRuns(files, at) && e.state != Running ==> NoneRuns(after))
  {
    var after := files[at := Readable(e)];
    forall k: nat ensures InState(after, k, Running) <==> if k == at then e.state == Running else InState(files, k, Running) {}
  }

  lemma NoneIsOne(files: seq<File>)
    requires NoneRuns(files)
    ensures OneRuns(files)
  {
    assert OnlyRuns(files, 0);
  }

  lemma RecoverExclusive(m: Machine)
    requires m.pc.Recovering? && Exclusive(m)
    ensures Exclusive(RecoverStep(m))
  {
    var k := m.pc.next;
    var i :| OnlyRuns(m.files, i);
    if k == m.pc.count {
      assert NoneRuns(m.files);
    } else if InState(m.files, k, Running) {
      assert OnlyRuns(m.files, k);
      WriteRuns(m.files, k, FailOrRequeue(m.files[k].entry));
      NoneIsOne(m.files[k := Readable(FailOrRequeue(m.files[k].entry))]);
    }
  }

  /** A write that leaves the entry not running, from a place where at most it is. */
  lemma QuietWrite(m: Machine, at: nat, e: Entry)
    requires at < |m.files| && e.state != Running && (NoneRuns(m.files) || OnlyRuns(m.files, at))
    ensures NoneRuns(m.files[at := Readable(e)]) && OneRuns(m.files[at := Readable(e)])
  {
    WriteRuns(m.files, at, e);
    NoneIsOne(m.files[at := Readable(e)]);
  }

  lemma StageExclusive(m: Machine, a: Answers)
    requires m.pc.Chosen? && Exclusive(m)
    ensures Exclusive(StageStep(m, a))
  {
    var at, e := m.pc.at, m.files[m.pc.at].entry;
    QuietWrite(m, at, FailOrRequeue(e));
    WriteRuns(m.files, at, e.(state := Running));
  }

  lemma StagedExclusive(m: Machine, a: Answers)
    requires m.pc.Staging? && Exclusive(m)
    ensures Exclusive(StagedStep(m, a))
  {
    var at, e := m.pc.at, m.files[m.pc.at].entry;
    QuietWrite(m, at, FailOrRequeue(e));
    QuietWrite(m, at, e.(state := Queued));
  }

  lemma LoadExclusive(m: Machine, a: Answers)
    requires m.pc.Loading? && Exclusive(m)
    ensures Exclusive(LoadStep(m, a))
  {
    QuietWrite(m, m.pc.at, FailOrRequeue(m.files[m.pc.at].entry));
  }

  lemma EnterExclusive(m: Machine, a: Answers)
    requires m.pc.Entering? && Exclusive(m)
    ensures Exclusive(EnterStep(m, a))
  {
    var at, e := m.pc.at, m.files[m.pc.at].entry;
    QuietWrite(m, at, FailOrRequeue(e));
    QuietWrite(m, at, e.(state := Done));
    QuietWrite(m, at, SkipPhase(e, m.pc.declared));
    WriteRuns(m.files, at, e.(state := Running));
  }

  lemma ExitExclusive(m: Machine, a: Answers)
    requires m.pc.Executing? && Exclusive(m)
    ensures Exclusive(ExitStep(m, a))
  {
    var at, e := m.pc.at, m.files[m.pc.at].entry;
    QuietWrite(m, at, FailOrRequeue(e));
    QuietWrite(m, at, e.(state := Queued));
    QuietWrite(m, at, FinishPhase(e, m.pc.declared));
  }

  lemma AdvanceExclusive(m: Machine, a: Answers)
    requires !m.pc.Idle? && Exclusive(m)
    ensures Exclusive(AdvanceStep(m, a))
  {
    match m.pc {
      case Recovering(_, _, _) => RecoverExclusive(m);
      case Picking(_, _) =>
      case Chosen(_, _) => StageExclusive(m, a);
      case Staging(_, _) => StagedExclusive(m, a);
      case Loading(_) => LoadExclusive(m, a);
      case Entering(_, _) => EnterExclusive(m, a);
      case Executing(_, _) => ExitExclusive(m, a);
    }
  }

  lemma EnqueueExclusive(m: Machine, e: Entry)
    requires Exclusive(m) && e.state != Running
    ensures Exclusive(m.(files := m.files + [Readable(e)]))
  {
    var after := m.files + [Readable(e)];
    forall k: nat ensures InState(after, k, Running) <==> InState(m.files, k, Running) {}
    var i :| OnlyRuns(m.files, i);
    assert OnlyRuns(after, i);
  }

  /** Entries come in as `new_entry` makes them. */
  predicate Arrives(action: Action) {
    action.Enqueue? ==>
      action.entry.state == Queued && action.entry.phase == 0 && action.entry.attempts == 0
  }

  lemma StepExclusive(m: Machine, action: Action, next: Machine)
    requires Exclusive(m) && Arrives(action) && StepTo(m, action, next)
    ensures Exclusive(next)
  {
    match action {
      case StartTick(_) =>
      case Advance(a) => AdvanceExclusive(m, a);
      case Kill =>
      case Enqueue(e) => EnqueueExclusive(m, e);
    }
  }

  // -- Attempts stay below the cap --------------------------------------------------------------

  predicate Active(e: Entry) {
    e.state == Queued || e.state == Running
  }

  predicate BelowCap(e: Entry) {
    Active(e) ==> e.attempts < e.maxAttempts
  }

  predicate AllBelowCap(files: seq<File>) {
    forall k: nat :: k < |files| && files[k].Readable? ==> BelowCap(files[k].entry)
  }

  predicate ArrivesBelowCap(action: Action) {
    Arrives(action) && (action.Enqueue? ==> action.entry.maxAttempts >= 1)
  }

  /** The rewrites of an active entry, each below the cap again. */
  lemma RewritesBelowCap(e: Entry, declared: nat)
    requires Active(e) && BelowCap(e)
    ensures BelowCap(FailOrRequeue(e)) && BelowCap(FinishPhase(e, declared)) && BelowCap(SkipPhase(e, declared))
    ensures BelowCap(e.(state := Queued)) && BelowCap(e.(state := Running)) && BelowCap(e.(state := Done))
  {}

  /** What a step of a tick does to the files: nothing, or one rewrite of one active entry. */
  predicate Rewrites(e: Entry, declared: nat, after: Entry) {
    after == FailOrRequeue(e) || after == FinishPhase(e, declared) || after == SkipPhase(e, declared)
    || after == e.(state := Queued) || after == e.(state := Running) || after == e.(state := Done)
  }

  ghost predicate OneRewrite(files: seq<File>, after: seq<File>) {
    after == files ||
    exists at: nat, declared: nat, e ::
      at < |files| && files[at].Readable? && Active(files[at].entry) && Rewrites(files[at].entry, declared, e)
      && after == files[at := Readable(e)]
  }

  lemma RewriteBy(files: seq<File>, at: nat, declared: nat, e: Entry)
    requires at < |files| && files[at].Readable? && Active(files[at].entry) && Rewrites(files[at].entry, declared, e)
    ensures OneRewrite(files, files[at := Readable(e)])
  {}

  lemma AdvanceRewrites(m: Machine, a: Answers)
    requires !m.pc.Idle? && Placed(m)
    ensures OneRewrite(m.files, AdvanceStep(m, a).files)
  {
    match m.pc {
      case Recovering(k, _, _) =>
        if InState(m.files, k, Running) { RewriteBy(m.files, k, 0, FailOrRequeue(m.files[k].entry)); }
      case Picking(_, _) =>
      case Chosen(at, _) => RewriteStage(m, a);
      case Staging(at, _) => RewriteStage(m, a);
      case Loading(at) => RewriteBy(m.files, at, 0, FailOrRequeue(m.files[at].entry));
      case Entering(at, declared) => RewriteEntering(m, a);
      case Executing(at, declared) => RewriteExecuting(m, a);
    }
  }

  lemma RewriteStage(m: Machine, a: Answers)
    requires (m.pc.Chosen? || m.pc.Staging?) && Placed(m)
    ensures OneRewrite(m.files, AdvanceStep(m, a).files)
  {
    var e := m.files[m.pc.at].entry;
    RewriteBy(m.files, m.pc.at, 0, FailOrRequeue(e));
    RewriteBy(m.files, m.pc.at, 0, e.(state := Running));
    RewriteBy(m.files, m.pc.at, 0, e.(state := Queued));
  }

  lemma RewriteEntering(m: Machine, a: Answers)
    requires m.pc.Entering? && Placed(m)
    ensures OneRewrite(m.files, AdvanceStep(m, a).files)
  {
    hide OneRewrite, EntryPhaseSeeds;
    var e, declared := m.files[m.pc.at].entry, m.pc.declared;
    RewriteBy(m.files, m.pc.at, declared, FailOrRequeue(e));
    RewriteBy(m.files, m.pc.at, declared, SkipPhase(e, declared));
    RewriteBy(m.files, m.pc.at, declared, e.(state := Running));
    RewriteBy(m.files, m.pc.at, declared, e.(state := Done));
  }

  lemma RewriteExecuting(m: Machine, a: Answers)
    requires m.pc.Executing? && Placed(m)
    ensures OneRewrite(m.files, AdvanceStep(m, a).files)
  {
    hide OneRewrite;
    var e, declared := m.files[m.pc.at].entry, m.pc.declared;
    RewriteBy(m.files, m.pc.at, declared, FailOrRequeue(e));
    RewriteBy(m.files, m.pc.at, declared, FinishPhase(e, declared));
    RewriteBy(m.files, m.pc.at, declared, e.(state := Queued));
  }

  lemma RewriteBelowCap(files: seq<File>, after: seq<File>)
    requires AllBelowCap(files) && OneRewrite(files, after)
    ensures AllBelowCap(after)
  {
    if after != files {
      var at: nat, declared: nat, e :|
        at < |files| && files[at].Readable? && Active(files[at].entry) && Rewrites(files[at].entry, declared, e)
        && after == files[at := Readable(e)];
      RewritesBelowCap(files[at].entry, declared);
    }
  }

  lemma StepBelowCap(m: Machine, action: Action, next: Machine)
    requires AllBelowCap(m.files) && ArrivesBelowCap(action) && StepTo(m, action, next)
    ensures AllBelowCap(next.files)
  {
    if action.Advance? {
      AdvanceRewrites(m, action.answers);
      RewriteBelowCap(m.files, next.files);
    }
  }

  /** An entry joins the queue below its cap exactly when it may fail once: the number of attempts asked
      for is not checked, and an entry asking for none is queued at its cap. */
  lemma JoinsBelowCap(campaign: Campaign, host: string, maxAttempts: int)
    ensures BelowCap(NewEntry(campaign, host, maxAttempts)) <==> maxAttempts >= 1
    ensures maxAttempts <= 1 ==> FailOrRequeue(NewEntry(campaign, host, maxAttempts)).state == Failed
  {}

  function FailTimes(e: Entry, n: nat): Entry {
    if n == 0 then e else FailOrRequeue(FailTimes(e, n - 1))
  }

  /** From no attempt spent an entry fails with as many failures as its cap, and waits at its phase until then. */
  lemma {:induction false} FailuresToStop(e: Entry, n: nat)
    requires n > 0 && e.attempts == 0
    ensures var after := FailTimes(e, n);
      after == e.(attempts := n, state := if n >= e.maxAttempts then Failed else Queued)
  {
    if n > 1 { FailuresToStop(e, n - 1); }
    else { assert FailTimes(e, 0) == e; }
  }

  // -- The frozen seeds -------------------------------------------------------------------------

  /** Every phase's text is empty or reads. */
  predicate TextsRead(e: Entry) {
    forall k: nat :: k < e.phases ==>
      EntryPhaseSeeds(e.frozen, k) == "" || Parsed(EntryPhaseSeeds(e.frozen, k)).Ok?
  }

  /** A new entry waits at its first phase, with every phase of the campaign before it, no attempt spent and
      texts that read. */
  lemma NewEntryTextsRead(campaign: Campaign, host: string, maxAttempts: int)
    requires WellSplit(campaign)
    ensures TextsRead(NewEntry(campaign, host, maxAttempts))
    ensures var e := NewEntry(campaign, host, maxAttempts);
      && e.host == host && e.maxAttempts == maxAttempts && e.frozen == Freeze(campaign, host)
      && e.phases == |campaign.phases| && e.phase == 0 && e.attempts == 0 && e.state == Queued && e.hasCommit
  {
    var e := NewEntry(campaign, host, maxAttempts);
    forall k: nat | k < e.phases
      ensures EntryPhaseSeeds(e.frozen, k) == "" || Parsed(EntryPhaseSeeds(e.frozen, k)).Ok?
    {
      FrozenTextIs(campaign, host, k);
    }
  }

  predicate AllTextsRead(files: seq<File>) {
    forall k: nat :: k < |files| && files[k].Readable? ==> TextsRead(files[k].entry)
  }

  /** What no step rewrites: whose entry it is, what it runs and on which seeds. */
  predicate SameFrozen(files: seq<File>, after: seq<File>) {
    && |files| <= |after|
    && forall k: nat :: k < |files| ==>
         after[k].Readable? == files[k].Readable?
         && (files[k].Readable? ==>
               after[k].entry.frozen == files[k].entry.frozen && after[k].entry.phases == files[k].entry.phases
               && after[k].entry.maxAttempts == files[k].entry.maxAttempts && after[k].entry.host == files[k].entry.host)
  }

  /** A declaration edited later moves no seed under an entry: ticks, kills and enqueues leave every
      entry's frozen texts as they were. */
  lemma StepKeepsFrozen(m: Machine, action: Action, next: Machine)
    requires StepTo(m, action, next)
    ensures SameFrozen(m.files, next.files)
  {
    if action.Advance? { AdvanceRewrites(m, action.answers); }
  }

  // -- Phases in order --------------------------------------------------------------------------

  /** A phase of a file exited 0, or had no seeds. */
  predicate Over(history: seq<Event>, file: nat, phase: nat) {
    Exited(file, phase, 0) in history || Skipped(file, phase) in history
  }

  /** Every phase behind an entry is over. */
  predicate Caught(files: seq<File>, history: seq<Event>) {
    forall i: nat, j: nat :: i < |files| && files[i].Readable? && j < files[i].entry.phase ==> Over(history, i, j)
  }

  /** A phase that started did so when every phase before it was over. */
  predicate InOrder(history: seq<Event>) {
    forall t: nat :: t < |history| && history[t].Started? ==> StartedInOrder(history, t)
  }

  predicate StartedInOrder(history: seq<Event>, t: nat)
    requires t < |history| && history[t].Started?
  {
    forall j: nat :: j < history[t].phase ==> Over(history[..t], history[t].file, j)
  }

  lemma HistoryGrows(history: seq<Event>, event: Event)
    requires InOrder(history)
    requires event.Started? ==> forall j: nat :: j < event.phase ==> Over(history, event.file, j)
    ensures InOrder(history + [event])
    ensures forall i: nat, j: nat :: Over(history, i, j) ==> Over(history + [event], i, j)
  {
    var after := history + [event];
    forall t: nat | t < |after| && after[t].Started? ensures StartedInOrder(after, t) {
      if t < |history| {
        assert StartedInOrder(history, t) && after[..t] == history[..t];
      } else {
        assert after[..t] == history;
      }
    }
  }

  /** A rewrite that does not move past a phase, or moves past one that is over. */
  lemma RewriteCaught(files: seq<File>, history: seq<Event>, at: nat, e: Entry)
    requires Caught(files, history) && at < |files| && files[at].Readable?
    requires e.phase <= files[at].entry.phase || (e.phase == files[at].entry.phase + 1 && Over(history, at, files[at].entry.phase))
    ensures Caught(files[at := Readable(e)], history)
  {}

  lemma LaterCaught(files: seq<File>, history: seq<Event>, event: Event)
    requires Caught(files, history)
    ensures Caught(files, history + [event])
  {
    forall i: nat, j: nat | i < |files| && files[i].Readable? && j < files[i].entry.phase
      ensures Over(history + [event], i, j)
    {
      assert Over(history, i, j);
    }
  }

  ghost predicate Ordered(m: Machine) {
    Caught(m.files, m.history) && InOrder(m.history)
  }

  lemma EnterOrdered(m: Machine, a: Answers)
    requires m.pc.Entering? && Placed(m) && Ordered(m)
    ensures Ordered(EnterStep(m, a))
  {
    var at, e := m.pc.at, m.files[m.pc.at].entry;
    var skipped, started := Skipped(at, e.phase), Started(at, e.phase);
    HistoryGrows(m.history, skipped);
    HistoryGrows(m.history, started);
    LaterCaught(m.files, m.history, skipped);
    LaterCaught(m.files, m.history, started);
    assert skipped in m.history + [skipped];
    RewriteCaught(m.files, m.history + [skipped], at, SkipPhase(e, m.pc.declared));
    RewriteCaught(m.files, m.history + [started], at, e.(state := Running));
    RewriteCaught(m.files, m.history, at, e.(state := Running));
    RewriteCaught(m.files, m.history, at, e.(state := Done));
    RewriteCaught(m.files, m.history, at, FailOrRequeue(e));
  }

  lemma ExitOrdered(m: Machine, a: Answers)
    requires m.pc.Executing? && Placed(m) && Ordered(m)
    ensures Ordered(ExitStep(m, a))
  {
    var at, e := m.pc.at, m.files[m.pc.at].entry;
    var exited := Exited(at, e.phase, a.code);
    HistoryGrows(m.history, exited);
    LaterCaught(m.files, m.history, exited);
    RewriteCaught(m.files, m.history, at, e.(state := Queued));
    RewriteCaught(m.files, m.history + [exited], at, FailOrRequeue(e));
    if a.code == 0 {
      assert exited in m.history + [exited];
      RewriteCaught(m.files, m.history + [exited], at, FinishPhase(e, m.pc.declared));
    }
  }

  lemma StageOrdered(m: Machine, a: Answers)
    requires (m.pc.Chosen? || m.pc.Staging? || m.pc.Loading?) && Placed(m) && Ordered(m)
    ensures Ordered(AdvanceStep(m, a))
  {
    var at, e := m.pc.at, m.files[m.pc.at].entry;
    RewriteCaught(m.files, m.history, at, FailOrRequeue(e));
    RewriteCaught(m.files, m.history, at, e.(state := Running));
    RewriteCaught(m.files, m.history, at, e.(state := Queued));
  }

  lemma StepOrdered(m: Machine, action: Action, next: Machine)
    requires Ordered(m) && Arrives(action) && StepTo(m, action, next)
    ensures Ordered(next)
  {
    if action.Advance? {
      match m.pc {
        case Recovering(k, _, _) =>
          if InState(m.files, k, Running) { RewriteCaught(m.files, m.history, k, FailOrRequeue(m.files[k].entry)); }
        case Chosen(_, _) => StageOrdered(m, action.answers);
        case Staging(_, _) => StageOrdered(m, action.answers);
        case Loading(_) => StageOrdered(m, action.answers);
        case Entering(_, _) => EnterOrdered(m, action.answers);
        case Executing(_, _) => ExitOrdered(m, action.answers);
        case _ =>
      }
    }
  }

  // -- Whole runs -------------------------------------------------------------------------------

  predicate Starts(m: Machine) {
    m.files == [] && m.pc.Idle? && m.history == []
  }

  ghost predicate QueueRun(states: seq<Machine>, actions: seq<Action>) {
    && IsRun((m: Machine, a: Action, n: Machine) => StepTo(m, a, n), states, actions)
    && Starts(states[0])
    && forall j :: 0 <= j < |actions| ==> Arrives(actions[j])
  }

  /** Under ticks, kills before any write and enqueues, at most one entry is running on disk, and no
      phase starts before every phase ahead of it exited 0 or had no seeds. */
  lemma RunsAreSafe(states: seq<Machine>, actions: seq<Action>, i: nat)
    requires QueueRun(states, actions) && i < |states|
    ensures OneRuns(states[i].files) && InOrder(states[i].history) && Caught(states[i].files, states[i].history)
  {
    NoneIsOne(states[0].files);
    forall m: Machine, a: Action, n: Machine | Exclusive(m) && Ordered(m) && Arrives(a) && StepTo(m, a, n)
      ensures Exclusive(n) && Ordered(n)
    {
      StepExclusive(m, a, n);
      StepOrdered(m, a, n);
    }
    Invariance((m: Machine, a: Action, n: Machine) => StepTo(m, a, n), (m: Machine) => Exclusive(m) && Ordered(m),
               (a: Action) => Arrives(a), states, actions, i);
  }

  /** No tick ever meets a seed text it cannot read, when entries are made from accepted splits. */
  lemma RunsKeepTexts(states: seq<Machine>, actions: seq<Action>, i: nat)
    requires QueueRun(states, actions) && i < |states|
    requires forall j :: 0 <= j < |actions| && actions[j].Enqueue? ==> TextsRead(actions[j].entry)
    ensures AllTextsRead(states[i].files)
  {
    forall m: Machine, a: Action, n: Machine
      | AllTextsRead(m.files) && (a.Enqueue? ==> TextsRead(a.entry)) && StepTo(m, a, n)
      ensures AllTextsRead(n.files)
    {
      StepKeepsFrozen(m, a, n);
      SameFrozenTexts(m.files, n.files, a);
    }
    Invariance((m: Machine, a: Action, n: Machine) => StepTo(m, a, n), (m: Machine) => AllTextsRead(m.files),
               (a: Action) => a.Enqueue? ==> TextsRead(a.entry), states, actions, i);
  }

  lemma SameFrozenTexts(files: seq<File>, after: seq<File>, a: Action)
    requires AllTextsRead(files) && SameFrozen(files, after) && (a.Enqueue? ==> TextsRead(a.entry))
    requires |after| == |files| || (a.Enqueue? && after == files + [Readable(a.entry)])
    ensures AllTextsRead(after)
  {
    forall k: nat | k < |after| && after[k].Readable? ensures TextsRead(after[k].entry) {
      if k < |files| { assert TextsRead(files[k].entry) && SameTexts(files[k].entry, after[k].entry); }
    }
  }

  predicate SameTexts(e: Entry, after: Entry) {
    after.frozen == e.frozen && after.phases == e.phases
  }

  /** When every entry may fail once, what waits or runs has attempts left. */
  lemma RunsStayBelowCap(states: seq<Machine>, actions: seq<Action>, i: nat)
    requires QueueRun(states, actions) && i < |states| && forall j :: 0 <= j < |actions| ==> ArrivesBelowCap(actions[j])
    ensures AllBelowCap(states[i].files)
  {
    forall m: Machine, a: Action, n: Machine | AllBelowCap(m.files) && ArrivesBelowCap(a) && StepTo(m, a, n)
      ensures AllBelowCap(n.files)
    {
      StepBelowCap(m, a, n);
    }
    Invariance((m: Machine, a: Action, n: Machine) => StepTo(m, a, n), (m: Machine) => AllBelowCap(m.files),
               (a: Action) => ArrivesBelowCap(a), states, actions, i);
  }

  // -- The queue drains -------------------------------------------------------------------------

  function PhasesLeft(e: Entry): nat {
    if e.phase < e.phases then e.phases - e.phase else 0
  }

  function AttemptsLeft(e: Entry): nat {
    if e.attempts < e.maxAttempts then e.maxAttempts - e.attempts else 0
  }

  /** The entry has spent an attempt, the last of which fails it; or is at the next phase, waiting or done
      after the last; or is done for want of a phase. */
  predicate Settles(e: Entry, after: Entry) {
    after.phases == e.phases && after.maxAttempts == e.maxAttempts &&
    (  || (after.phase == e.phase && after.attempts == e.attempts + 1
           && after.state == if e.attempts + 1 >= e.maxAttempts then Failed else Queued)
       || (after.phase == e.phase + 1 && (after.attempts == 0 || after.attempts == e.attempts)
           && after.state == if e.phase + 1 >= e.phases then Done else Queued)
       || (e.phase >= e.phases && after == e.(state := Done)))
  }

  lemma RewritesSettle(e: Entry)
    requires Active(e) && BelowCap(e)
    ensures Settles(e, FailOrRequeue(e)) && (e.phase >= e.phases ==> Settles(e, e.(state := Done)))
    ensures Settles(e, FinishPhase(e, e.phases)) && Settles(e, SkipPhase(e, e.phases))
  {}

  /** The tick works on an entry it picked. */
  predicate Picked(pc: Pc) {
    pc.Chosen? || pc.Staging? || pc.Loading? || pc.Entering? || pc.Executing?
  }

  /** The declaration on the entry's own commit has the phases the entry was queued with. */
  predicate Declared(m: Machine) {
    (m.pc.Entering? || m.pc.Executing?) && Placed(m) ==> m.pc.declared == m.files[m.pc.at].entry.phases
  }

  predicate Faithful(m: Machine, action: Action) {
    action.Advance? && m.pc.Loading? && Placed(m) ==> action.answers.declared == m.files[m.pc.at].entry.phases
  }

  /** A tick that is not a dry run and was not killed leaves the entry it picked settled. */
  lemma CompletedTickSettles(m: Machine, a: Answers)
    requires Picked(m.pc) && Placed(m) && Declared(m) && AllBelowCap(m.files) && !m.args.dryRun
    requires AdvanceStep(m, a).pc.Idle?
    ensures AdvanceStep(m, a).files[m.pc.at].Readable?
    ensures Settles(m.files[m.pc.at].entry, AdvanceStep(m, a).files[m.pc.at].entry)
  {
    RewritesSettle(m.files[m.pc.at].entry);
  }

  /** The same work left to do, whatever the state. */
  predicate SameWork(e: Entry, now: Entry) {
    Active(now) && now == e.(state := now.state)
  }

  ghost predicate NoneReadyBefore(files: seq<File>, at: nat, host: Option<string>) {
    forall i: nat :: i < at ==> !Ready(files, i, host)
  }

  /** A tick, restarted or not, that is bound to work on entry `at`. */
  ghost predicate Bound(m: Machine, at: nat, e: Entry) {
    && at < |m.files| && m.files[at].Readable? && SameWork(e, m.files[at].entry) && !m.args.dryRun
    && (m.args.host.None? || e.host == m.args.host.value)
    && NoneReadyBefore(m.files, at, m.args.host)
    && match m.pc
       case Idle => false
       case Recovering(_, count, _) => at < count && NoneRuns(m.files) && InState(m.files, at, Queued)
       case Picking(count, _) => at < count && InState(m.files, at, Queued)
       case _ => m.pc.at == at
  }

  lemma PickBinds(m: Machine)
    requires m.pc.Picking? && Placed(m) && PickStep(m).pc.Chosen? && !m.args.dryRun
    ensures var at := PickStep(m).pc.at; Bound(PickStep(m), at, m.files[at].entry)
  {}

  lemma BoundPicks(m: Machine, at: nat, e: Entry)
    requires m.pc.Picking? && Placed(m) && Bound(m, at, e)
    ensures Bound(PickStep(m), at, e)
  {
    assert Ready(m.files, at, m.args.host);
  }

  /** Writing entry `at` does not make an earlier one ready. */
  lemma StillNotReady(files: seq<File>, at: nat, e: Entry, host: Option<string>)
    requires at < |files| && NoneReadyBefore(files, at, host)
    ensures NoneReadyBefore(files[at := Readable(e)], at, host)
  {
    var after := files[at := Readable(e)];
    forall i: nat | i < at ensures !Ready(after, i, host) { assert after[i] == files[i] && !Ready(files, i, host); }
  }

  lemma BoundStages(m: Machine, a: Answers, at: nat, e: Entry)
    requires m.pc.Staging? && Exclusive(m) && Bound(m, at, e) && !AdvanceStep(m, a).pc.Idle?
    ensures Bound(AdvanceStep(m, a), at, e)
  {
    QuietWrite(m, at, m.files[at].entry.(state := Queued));
    StillNotReady(m.files, at, m.files[at].entry.(state := Queued), m.args.host);
  }

  lemma BoundAdvances(m: Machine, a: Answers, at: nat, e: Entry)
    requires !m.pc.Idle? && Exclusive(m) && Bound(m, at, e) && !AdvanceStep(m, a).pc.Idle?
    ensures Bound(AdvanceStep(m, a), at, e)
  {
    match m.pc {
      case Picking(_, _) => BoundPicks(m, at, e);
      case Staging(_, _) => BoundStages(m, a, at, e);
      case _ => BoundWrites(m, a, at, e);
    }
  }

  lemma BoundWrites(m: Machine, a: Answers, at: nat, e: Entry)
    requires !m.pc.Idle? && !m.pc.Picking? && !m.pc.Staging?
    requires Exclusive(m) && Bound(m, at, e) && !AdvanceStep(m, a).pc.Idle?
    ensures Bound(AdvanceStep(m, a), at, e)
  {
    hide NoneReadyBefore;
    StillNotReady(m.files, at, m.files[at].entry.(state := Running), m.args.host);
  }

  lemma SameWorkSettles(e: Entry, now: Entry, after: Entry)
    requires SameWork(e, now) && Settles(now, after)
    ensures Settles(e, after)
  {}

  lemma BoundEnds(m: Machine, a: Answers, at: nat, e: Entry)
    requires Working(m) && Bound(m, at, e) && AdvanceStep(m, a).pc.Idle?
    ensures AdvanceStep(m, a).files[at].Readable? && Settles(e, AdvanceStep(m, a).files[at].entry)
  {
    if m.pc.Picking? {
      BoundPicks(m, at, e);
    } else {
      CompletedTickSettles(m, a);
      SameWorkSettles(e, m.files[at].entry, AdvanceStep(m, a).files[at].entry);
    }
  }

  lemma BoundEnqueues(m: Machine, f: Entry, at: nat, e: Entry)
    requires Bound(m, at, e) && f.state != Running
    ensures Bound(m.(files := m.files + [Readable(f)]), at, e)
  {
    var after := m.files + [Readable(f)];
    forall k: nat | k < |m.files| ensures after[k] == m.files[k] {}
    forall i: nat | i < at ensures !Ready(after, i, m.args.host) { assert !Ready(m.files, i, m.args.host); }
    if NoneRuns(m.files) {
      forall k: nat ensures !InState(after, k, Running) { assert !InState(m.files, k, Running); }
    }
  }

  lemma BoundStays(m: Machine, action: Action, next: Machine, at: nat, e: Entry)
    requires Exclusive(m) && Working(m) && Bound(m, at, e) && Arrives(action) && StepTo(m, action, next) && !action.Kill?
    ensures if next.pc.Idle? then at < |next.files| && next.files[at].Readable? && Settles(e, next.files[at].entry)
            else Bound(next, at, e)
  {
    match action {
      case Advance(a) => if next.pc.Idle? { BoundEnds(m, a, at, e); } else { BoundAdvances(m, a, at, e); }
      case Enqueue(f) => BoundEnqueues(m, f, at, e);
      case _ =>
    }
  }

  /** From its pick to its end a tick that is not killed and not a dry run settles the entry it picked,
      through staging and a restart, whatever is enqueued meanwhile. */
  lemma {:induction false} TickSettles(states: seq<Machine>, actions: seq<Action>, i: nat, j: nat)
    requires QueueRun(states, actions) && i < j <= |actions|
    requires states[i].pc.Picking? && states[i + 1].pc.Chosen? && !states[i].args.dryRun && actions[i].Advance?
    requires forall k :: 0 <= k < |actions| ==> ArrivesBelowCap(actions[k]) && Faithful(states[k], actions[k])
    requires forall k :: i < k < j ==> !actions[k].Kill? && !states[k].pc.Idle?
    ensures var at := states[i + 1].pc.at;
      && at < |states[i].files| && at < |states[j].files| && states[i].files[at].Readable? && states[j].files[at].Readable?
      && if states[j].pc.Idle? then Settles(states[i].files[at].entry, states[j].files[at].entry)
         else Bound(states[j], at, states[i].files[at].entry)
  {
    RunsWork(states, actions, j - 1);
    assert Follows((m: Machine, a: Action, n: Machine) => StepTo(m, a, n), states, actions, j - 1);
    if j == i + 1 {
      PickBinds(states[i]);
    } else {
      TickSettles(states, actions, i, j - 1);
      BoundStays(states[j - 1], actions[j - 1], states[j], states[i + 1].pc.at, states[i].files[states[i + 1].pc.at].entry);
    }
  }

  lemma {:induction false} RunsWork(states: seq<Machine>, actions: seq<Action>, i: nat)
    requires QueueRun(states, actions) && i < |states|
    requires forall k :: 0 <= k < |actions| ==> ArrivesBelowCap(actions[k]) && Faithful(states[k], actions[k])
    ensures Exclusive(states[i]) && Working(states[i])
  {
    if i == 0 {
      NoneIsOne(states[0].files);
    } else {
      RunsWork(states, actions, i - 1);
      assert Follows((m: Machine, a: Action, n: Machine) => StepTo(m, a, n), states, actions, i - 1);
      StepExclusive(states[i - 1], actions[i - 1], states[i]);
      StepWorks(states[i - 1], actions[i - 1], states[i]);
    }
  }

  lemma StepWorks(m: Machine, action: Action, next: Machine)
    requires Exclusive(m) && Working(m) && ArrivesBelowCap(action) && Faithful(m, action) && StepTo(m, action, next)
    ensures Working(next)
  {
    StepExclusive(m, action, next);
    StepBelowCap(m, action, next);
    if action.Advance? { AdvanceDeclared(m, action.answers); }
  }

  lemma {:induction false} ProductGrows(n: nat, m: nat, size: nat)
    requires n < m
    ensures n * size + size <= m * size
  {
    assert m * size == (m - 1) * size + size;
    if n + 1 < m { ProductGrows(n, m - 1, size); }
  }

  /** How many more times an entry can be settled, at most. */
  function Weight(e: Entry): nat {
    if !Active(e) then 0
    else
      var cap := if e.maxAttempts > 0 then e.maxAttempts else 0;
      1 + PhasesLeft(e) * (cap + 1) + AttemptsLeft(e)
  }

  lemma SettlingWeighsLess(e: Entry, after: Entry)
    requires Active(e) && Settles(e, after)
    ensures Weight(after) < Weight(e)
  {
    if Active(after) && PhasesLeft(after) < PhasesLeft(e) {
      ProductGrows(PhasesLeft(after), PhasesLeft(e), (if e.maxAttempts > 0 then e.maxAttempts else 0) + 1);
    }
  }

  function FileWeight(f: File): nat {
    if f.Readable? then Weight(f.entry) else 0
  }

  function Total(files: seq<File>): nat {
    if files == [] then 0 else FileWeight(files[0]) + Total(files[1..])
  }

  lemma {:induction false} TotalUpdates(files: seq<File>, at: nat, f: File)
    requires at < |files|
    ensures Total(files[at := f]) + FileWeight(files[at]) == Total(files) + FileWeight(f)
  {
    if at == 0 {
      assert files[0 := f][1..] == files[1..];
    } else {
      assert files[at := f][1..] == files[1..][at - 1 := f];
      TotalUpdates(files[1..], at - 1, f);
    }
  }

  /** A step that settles an entry: a tick's end on the entry it picked, or the recovery of one that a
      dead tick left running. */
  predicate Spends(m: Machine, action: Action) {
    action.Advance? && !m.pc.Idle? && Placed(m) &&
    if m.pc.Recovering? then m.pc.next < m.pc.count && InState(m.files, m.pc.next, Running)
    else Picked(m.pc) && !m.args.dryRun && AdvanceStep(m, action.answers).pc.Idle?
  }

  /** One file rewritten, and lighter for it. */
  lemma LighterFile(files: seq<File>, at: nat, e: Entry)
    requires at < |files| && files[at].Readable? && Active(files[at].entry) && Settles(files[at].entry, e)
    ensures Total(files[at := Readable(e)]) < Total(files)
  {
    SettlingWeighsLess(files[at].entry, e);
    TotalUpdates(files, at, Readable(e));
  }

  /** One file rewritten with only its state changed between waiting and running. */
  lemma SameWeightFile(files: seq<File>, at: nat, e: Entry)
    requires at < |files| && files[at].Readable? && Active(files[at].entry) && Active(e)
    requires e == files[at].entry.(state := e.state)
    ensures Total(files[at := Readable(e)]) == Total(files)
  {
    TotalUpdates(files, at, Readable(e));
  }

  lemma RecoverWeighs(m: Machine)
    requires m.pc.Recovering? && Placed(m) && AllBelowCap(m.files)
    ensures Total(RecoverStep(m).files) + (if m.pc.next < m.pc.count && InState(m.files, m.pc.next, Running) then 1 else 0)
         <= Total(m.files)
  {
    var k := m.pc.next;
    if k < m.pc.count && InState(m.files, k, Running) {
      RewritesSettle(m.files[k].entry);
      LighterFile(m.files, k, FailOrRequeue(m.files[k].entry));
    }
  }

  /** Where the tick goes on or the run is dry, an entry is at most re-marked or settled. */
  lemma PickedWeighs(m: Machine, a: Answers)
    requires Picked(m.pc) && Placed(m) && Declared(m) && AllBelowCap(m.files)
    ensures Total(AdvanceStep(m, a).files) <= Total(m.files)
    ensures AdvanceStep(m, a).pc.Idle? && !m.args.dryRun ==> Total(AdvanceStep(m, a).files) < Total(m.files)
  {
    var at, e := m.pc.at, m.files[m.pc.at].entry;
    RewritesSettle(e);
    LighterFile(m.files, at, FailOrRequeue(e));
    if e.phase >= e.phases { LighterFile(m.files, at, e.(state := Done)); }
    SameWeightFile(m.files, at, e.(state := Queued));
    SameWeightFile(m.files, at, e.(state := Running));
    LighterFile(m.files, at, FinishPhase(e, e.phases));
    LighterFile(m.files, at, SkipPhase(e, e.phases));
    PickedRewrite(m, a);
  }

  /** Every way a step can rewrite the picked entry. */
  lemma PickedRewrite(m: Machine, a: Answers)
    requires Picked(m.pc) && Placed(m) && Declared(m)
    ensures var at, e, next := m.pc.at, m.files[m.pc.at].entry, AdvanceStep(m, a);
      || next.files == m.files[at := Readable(FailOrRequeue(e))]
      || (next.files == m.files[at := Readable(e.(state := Done))] && next.pc.Idle? && e.phase >= e.phases)
      || (next.files == m.files[at := Readable(e.(state := Queued))] && (next.pc.Idle? ==> m.args.dryRun))
      || (next.files == m.files[at := Readable(e.(state := Running))] && !next.pc.Idle?)
      || (next.files == m.files && !next.pc.Idle?)
      || next.files == m.files[at := Readable(SkipPhase(e, e.phases))]
      || next.files == m.files[at := Readable(FinishPhase(e, e.phases))]
  {}

  /** The declaration a tick goes by is the one its entry was queued with. */
  ghost predicate Working(m: Machine) {
    Placed(m) && Declared(m) && AllBelowCap(m.files)
  }

  lemma AdvanceDeclared(m: Machine, a: Answers)
    requires !m.pc.Idle? && Placed(m) && Declared(m) && Faithful(m, Advance(a))
    ensures Declared(AdvanceStep(m, a))
  {}

  lemma AdvancePlaced(m: Machine, a: Answers)
    requires !m.pc.Idle? && Placed(m)
    ensures Placed(AdvanceStep(m, a))
  {}

  lemma AdvanceWorking(m: Machine, a: Answers)
    requires !m.pc.Idle? && Working(m) && Faithful(m, Advance(a))
    ensures Working(AdvanceStep(m, a))
  {
    AdvancePlaced(m, a);
    AdvanceDeclared(m, a);
    AdvanceRewrites(m, a);
    RewriteBelowCap(m.files, AdvanceStep(m, a).files);
  }

  lemma StepWeighs(m: Machine, action: Action, next: Machine)
    requires Working(m) && StepTo(m, action, next) && Faithful(m, action) && !action.Enqueue?
    ensures Working(next)
    ensures Total(next.files) + (if Spends(m, action) then 1 else 0) <= Total(m.files)
  {
    if action.Advance? {
      AdvanceWorking(m, action.answers);
      if m.pc.Recovering? { RecoverWeighs(m); }
      else if Picked(m.pc) { PickedWeighs(m, action.answers); }
    }
  }

  /** How many of the first `n` steps settle an entry. */
  ghost function Settlements(states: seq<Machine>, actions: seq<Action>, n: nat): nat
    requires n <= |actions| && n < |states|
  {
    if n == 0 then 0 else Settlements(states, actions, n - 1) + if Spends(states[n - 1], actions[n - 1]) then 1 else 0
  }

  /** From any state a run without further enqueues settles entries no more often than their phases and
      attempts allow, however it is killed: ticks that end and recoveries of killed ones together. */
  lemma {:induction false} QueueDrains(states: seq<Machine>, actions: seq<Action>, n: nat)
    requires IsRun((m: Machine, a: Action, next: Machine) => StepTo(m, a, next), states, actions)
    requires n <= |actions| && Working(states[0])
    requires forall j :: 0 <= j < |actions| ==> !actions[j].Enqueue? && Faithful(states[j], actions[j])
    ensures Working(states[n])
    ensures Total(states[n].files) + Settlements(states, actions, n) <= Total(states[0].files)
  {
    if n > 0 {
      QueueDrains(states, actions, n - 1);
      assert Follows((m: Machine, a: Action, next: Machine) => StepTo(m, a, next), states, actions, n - 1);
      StepWeighs(states[n - 1], actions[n - 1], states[n]);
    }
  }
}
