/** What the queue's history says of its entries: when one is done, when it has failed, and what a tick
    must have met before a phase starts. */
module CampaignOutcomes {
  import opened CampaignQueue
  import opened HostSplits
  import opened Runs
  import opened Wrappers

  /** A run whose declarations are those the entries were queued with. */
  ghost predicate FaithfulRun(states: seq<Machine>, actions: seq<Action>) {
    QueueRun(states, actions) && forall k :: 0 <= k < |actions| ==> Faithful(states[k], actions[k])
  }

  lemma StepOfRun(states: seq<Machine>, actions: seq<Action>, j: nat)
    requires QueueRun(states, actions) && j < |actions|
    ensures StepTo(states[j], actions[j], states[j + 1]) && Arrives(actions[j])
  {
    assert Follows((m: Machine, a: Action, n: Machine) => StepTo(m, a, n), states, actions, j);
  }

  // -- Done, and the phases that are over -------------------------------------------------------

  /** An entry is past its phases exactly when it is done, a phase is over exactly when the entry is past
      it, and one that has no phases waits to be found so. */
  ghost predicate Accounted(m: Machine) {
    forall i: nat :: i < |m.files| && m.files[i].Readable? ==> EntryAccounted(m.files[i].entry, m.history, i)
  }

  ghost predicate EntryAccounted(e: Entry, history: seq<Event>, i: nat) {
    && (e.state == Done ==> e.phase >= e.phases)
    && (e.state != Done && e.phases > 0 ==> e.phase < e.phases)
    && (forall j: nat :: Over(history, i, j) <==> j < e.phase)
  }

  /** No event speaks of an entry that is not there. */
  ghost predicate NoneToCome(m: Machine) {
    forall i: nat, j: nat :: i >= |m.files| ==> !Over(m.history, i, j)
  }

  ghost predicate Consistent(m: Machine) {
    Placed(m) && Declared(m) && Accounted(m) && NoneToCome(m)
  }

  /** A rewrite that stays on its phase. */
  lemma SamePhaseAccounted(m: Machine, at: nat, e: Entry, pc: Pc)
    requires Accounted(m) && NoneToCome(m) && at < |m.files| && m.files[at].Readable?
    requires e.phases == m.files[at].entry.phases && e.phase == m.files[at].entry.phase
    requires m.files[at].entry.state != Done
    requires e.state == Done ==> e.phase >= e.phases
    ensures Accounted(Write(m, at, e, pc)) && NoneToCome(Write(m, at, e, pc))
  {
    var n := Write(m, at, e, pc);
    assert EntryAccounted(m.files[at].entry, m.history, at);
    forall i: nat | i < |n.files| && n.files[i].Readable? ensures EntryAccounted(n.files[i].entry, n.history, i) {
      if i != at { assert EntryAccounted(m.files[i].entry, m.history, i); }
    }
  }

  /** An event that ends no phase. */
  lemma NotedAccounted(m: Machine, event: Event)
    requires Accounted(m) && NoneToCome(m) && !event.Skipped? && !(event.Exited? && event.code == 0)
    ensures Accounted(Note(m, event)) && NoneToCome(Note(m, event))
  {
    var n := Note(m, event);
    forall i: nat, j: nat ensures Over(n.history, i, j) <==> Over(m.history, i, j) {}
    forall i: nat | i < |n.files| && n.files[i].Readable? ensures EntryAccounted(n.files[i].entry, n.history, i) {
      assert EntryAccounted(m.files[i].entry, m.history, i);
    }
  }

  /** A rewrite to the next phase, with the event that ends this one. */
  lemma NextPhaseAccounted(m: Machine, at: nat, e: Entry, pc: Pc, event: Event)
    requires Accounted(m) && NoneToCome(m) && at < |m.files| && m.files[at].Readable?
    requires m.files[at].entry.state != Done
    requires e.phases == m.files[at].entry.phases && e.phase == m.files[at].entry.phase + 1 <= e.phases
    requires e.state == Done <==> e.phase == e.phases
    requires event == Exited(at, e.phase - 1, 0) || event == Skipped(at, e.phase - 1)
    ensures Accounted(Note(Write(m, at, e, pc), event)) && NoneToCome(Note(Write(m, at, e, pc), event))
  {
    var n := Note(Write(m, at, e, pc), event);
    assert EntryAccounted(m.files[at].entry, m.history, at);
    forall i: nat, j: nat ensures Over(n.history, i, j) <==> Over(m.history, i, j) || (i == at && j == e.phase - 1) {}
    forall i: nat | i < |n.files| && n.files[i].Readable? ensures EntryAccounted(n.files[i].entry, n.history, i) {
      if i != at { assert EntryAccounted(m.files[i].entry, m.history, i); }
    }
  }

  lemma EnterAccounted(m: Machine, a: Answers)
    requires m.pc.Entering? && Consistent(m)
    ensures Accounted(EnterStep(m, a)) && NoneToCome(EnterStep(m, a))
  {
    hide Accounted, NoneToCome;
    var at, e, declared := m.pc.at, m.files[m.pc.at].entry, m.pc.declared;
    var next := Executing(at, declared);
    if e.phase >= declared {
      SamePhaseAccounted(m, at, e.(state := Done), Idle);
    } else if EntryPhaseSeeds(e.frozen, e.phase) == "" {
      NextPhaseAccounted(m, at, SkipPhase(e, declared), Idle, Skipped(at, e.phase));
    } else if a.blocked && !m.args.dryRun {
      StillToDo(m, at);
      SamePhaseAccounted(m, at, FailOrRequeue(e), Idle);
    } else {
      SamePhaseAccounted(m, at, e.(state := Running), next);
      NotedAccounted(Write(m, at, e.(state := Running), next), Started(at, e.phase));
    }
  }

  lemma StillToDo(m: Machine, at: nat)
    requires Accounted(m) && at < |m.files| && m.files[at].Readable?
    ensures EntryAccounted(m.files[at].entry, m.history, at)
  {}

  lemma ExitAccounted(m: Machine, a: Answers)
    requires m.pc.Executing? && Consistent(m) && RunsAPhase(m)
    ensures Accounted(ExitStep(m, a)) && NoneToCome(ExitStep(m, a))
  {
    hide Accounted, NoneToCome;
    var at, e := m.pc.at, m.files[m.pc.at].entry;
    if m.args.dryRun {
      SamePhaseAccounted(m, at, e.(state := Queued), Idle);
    } else if a.code != 0 {
      SamePhaseAccounted(m, at, FailOrRequeue(e), Idle);
      NotedAccounted(Fail(m, at), Exited(at, e.phase, a.code));
    } else {
      NextPhaseAccounted(m, at, FinishPhase(e, m.pc.declared), Idle, Exited(at, e.phase, 0));
    }
  }

  /** What executes is a phase of the declaration that has seeds. */
  predicate RunsAPhase(m: Machine) {
    m.pc.Executing? && Placed(m) ==>
      m.files[m.pc.at].entry.phase < m.pc.declared
      && EntryPhaseSeeds(m.files[m.pc.at].entry.frozen, m.files[m.pc.at].entry.phase) != ""
  }

  lemma AdvanceRunsAPhase(m: Machine, a: Answers)
    requires !m.pc.Idle? && Placed(m)
    ensures RunsAPhase(AdvanceStep(m, a))
  {}

  lemma StageAccounted(m: Machine, a: Answers)
    requires (m.pc.Chosen? || m.pc.Staging? || m.pc.Loading?) && Consistent(m)
    ensures Accounted(AdvanceStep(m, a)) && NoneToCome(AdvanceStep(m, a))
  {
    hide Accounted, NoneToCome;
    var at, e, next := m.pc.at, m.files[m.pc.at].entry, AdvanceStep(m, a);
    SamePhaseAccounted(m, at, FailOrRequeue(e), next.pc);
    SamePhaseAccounted(m, at, e.(state := Running), next.pc);
    SamePhaseAccounted(m, at, e.(state := Queued), next.pc);
    if next.files == m.files { SameFilesAccounted(m, next); }
  }

  lemma SameFilesAccounted(m: Machine, next: Machine)
    requires Accounted(m) && NoneToCome(m) && next.files == m.files && next.history == m.history
    ensures Accounted(next) && NoneToCome(next)
  {
    forall i: nat | i < |next.files| && next.files[i].Readable? ensures EntryAccounted(next.files[i].entry, next.history, i) {
      assert EntryAccounted(m.files[i].entry, m.history, i);
    }
  }

  lemma RecoverAccounted(m: Machine)
    requires m.pc.Recovering? && Consistent(m)
    ensures Accounted(RecoverStep(m)) && NoneToCome(RecoverStep(m))
  {
    hide Accounted, NoneToCome;
    var k := m.pc.next;
    if InState(m.files, k, Running) { SamePhaseAccounted(m, k, FailOrRequeue(m.files[k].entry), RecoverStep(m).pc); }
    if RecoverStep(m).files == m.files { SameFilesAccounted(m, RecoverStep(m)); }
  }

  lemma AdvanceAccounted(m: Machine, a: Answers)
    requires !m.pc.Idle? && Consistent(m) && RunsAPhase(m)
    ensures Accounted(AdvanceStep(m, a)) && NoneToCome(AdvanceStep(m, a))
  {
    hide Accounted, NoneToCome, RunsAPhase;
    match m.pc {
      case Recovering(_, _, _) => RecoverAccounted(m);
      case Picking(_, _) => SameFilesAccounted(m, PickStep(m));
      case Entering(_, _) => EnterAccounted(m, a);
      case Executing(_, _) => ExitAccounted(m, a);
      case _ => StageAccounted(m, a);
    }
  }

  lemma EnqueueAccounted(m: Machine, e: Entry)
    requires Accounted(m) && NoneToCome(m) && e.state == Queued && e.phase == 0
    ensures Accounted(m.(files := m.files + [Readable(e)])) && NoneToCome(m.(files := m.files + [Readable(e)]))
  {
    var n := m.(files := m.files + [Readable(e)]);
    forall i: nat | i < |n.files| && n.files[i].Readable? ensures EntryAccounted(n.files[i].entry, n.history, i) {
      if i < |m.files| { assert EntryAccounted(m.files[i].entry, m.history, i); }
      else { assert forall j: nat :: !Over(m.history, i, j); }
    }
  }

  lemma StepConsistent(m: Machine, action: Action, next: Machine)
    requires Exclusive(m) && Consistent(m) && RunsAPhase(m)
    requires Arrives(action) && Faithful(m, action) && StepTo(m, action, next)
    ensures Consistent(next) && RunsAPhase(next)
  {
    hide Accounted, NoneToCome;
    match action {
      case StartTick(_) => SameFilesAccounted(m, next);
      case Advance(a) =>
        AdvancePlaced(m, a);
        AdvanceDeclared(m, a);
        AdvanceRunsAPhase(m, a);
        AdvanceAccounted(m, a);
      case Kill => SameFilesAccounted(m, next);
      case Enqueue(e) => EnqueueAccounted(m, e);
    }
  }

  lemma {:induction false} RunsConsistent(states: seq<Machine>, actions: seq<Action>, i: nat)
    requires FaithfulRun(states, actions) && i < |states|
    ensures Exclusive(states[i]) && Consistent(states[i]) && RunsAPhase(states[i])
  {
    if i == 0 {
      NoneIsOne(states[0].files);
    } else {
      RunsConsistent(states, actions, i - 1);
      StepOfRun(states, actions, i - 1);
      StepExclusive(states[i - 1], actions[i - 1], states[i]);
      StepConsistent(states[i - 1], actions[i - 1], states[i]);
    }
  }

  /** In every run an entry with phases is done exactly when each of them exited 0 or had no seeds; and
      what has had its turn is what is behind it. */
  lemma DoneExactlyWhenOver(states: seq<Machine>, actions: seq<Action>, i: nat, file: nat)
    requires FaithfulRun(states, actions) && i < |states| && file < |states[i].files| && states[i].files[file].Readable?
    ensures var e, history := states[i].files[file].entry, states[i].history;
      && (e.state == Done ==>
            forall j: nat :: j < e.phases ==> Exited(file, j, 0) in history || Skipped(file, j) in history)
      && (e.phases > 0 && (forall j: nat :: j < e.phases ==> Exited(file, j, 0) in history || Skipped(file, j) in history) ==>
            e.state == Done)
      && forall j: nat :: Exited(file, j, 0) in history || Skipped(file, j) in history <==> j < e.phase
  {
    RunsConsistent(states, actions, i);
    var e, history := states[i].files[file].entry, states[i].history;
    assert EntryAccounted(e, history, file);
    forall j: nat ensures (Exited(file, j, 0) in history || Skipped(file, j) in history) <==> j < e.phase {
      assert Over(history, file, j) <==> j < e.phase;
    }
    if e.phases > 0 && e.state != Done { assert !Over(history, file, e.phase); }
  }

  // -- Failed, and the attempts spent -----------------------------------------------------------

  ghost predicate FailedAtCap(files: seq<File>) {
    forall i: nat :: i < |files| && files[i].Readable? ==>
      (files[i].entry.state == Failed <==> files[i].entry.attempts >= files[i].entry.maxAttempts)
  }

  lemma RewriteFailsAtCap(files: seq<File>, after: seq<File>)
    requires FailedAtCap(files) && OneRewrite(files, after)
    ensures FailedAtCap(after)
  {}

  /** In every run of entries that may fail once, the failed are those that have spent their attempts. */
  lemma {:induction false} FailedExactlyAtCap(states: seq<Machine>, actions: seq<Action>, i: nat)
    requires QueueRun(states, actions) && i < |states| && forall k :: 0 <= k < |actions| ==> ArrivesBelowCap(actions[k])
    ensures forall file: nat :: file < |states[i].files| && states[i].files[file].Readable? ==>
              (states[i].files[file].entry.state == Failed <==>
               states[i].files[file].entry.attempts >= states[i].files[file].entry.maxAttempts)
  {
    if i > 0 {
      FailedExactlyAtCap(states, actions, i - 1);
      StepOfRun(states, actions, i - 1);
      if actions[i - 1].Advance? {
        AdvanceRewrites(states[i - 1], actions[i - 1].answers);
        RewriteFailsAtCap(states[i - 1].files, states[i].files);
      }
    }
  }

  // -- What a step of a tick leaves -------------------------------------------------------------

  /** Nothing but the state, the phase and the attempts of one file changes. */
  predicate OnlyFile(files: seq<File>, after: seq<File>, file: nat) {
    && file < |files| == |after| && files[file].Readable? && after[file].Readable?
    && (forall i: nat :: i < |files| && i != file ==> after[i] == files[i])
    && var e, e' := files[file].entry, after[file].entry;
       e' == e.(state := e'.state, phase := e'.phase, attempts := e'.attempts)
  }

  /** One attempt more, and the entry stopped if it was the last. */
  predicate SpendsAttempt(e: Entry, after: Entry) {
    && after.phase == e.phase && after.attempts == e.attempts + 1
    && after.state == if e.attempts + 1 >= e.maxAttempts then Failed else Queued
  }

  /** A phase that exits 0 leaves its entry at the next with no attempt spent, or done after the last;
      one that exits otherwise costs an attempt. Either way the tick is over. */
  lemma ExitLeaves(states: seq<Machine>, actions: seq<Action>, j: nat, file: nat, k: nat, code: int)
    requires FaithfulRun(states, actions) && j < |actions|
    requires states[j + 1].history == states[j].history + [Exited(file, k, code)]
    ensures states[j + 1].pc.Idle? && OnlyFile(states[j].files, states[j + 1].files, file)
    ensures var e, after := states[j].files[file].entry, states[j + 1].files[file].entry;
      && e.state == Running && e.phase == k < e.phases
      && (code == 0 ==> after.phase == k + 1 && after.attempts == 0
                        && after.state == if k + 1 < e.phases then Queued else Done)
      && (code != 0 ==> SpendsAttempt(e, after))
  {
    RunsConsistent(states, actions, j);
    StepOfRun(states, actions, j);
    LastOf(states[j].history, Exited(file, k, code));
    ExitEvent(states[j], actions[j], states[j + 1]);
  }

  lemma LastOf(history: seq<Event>, event: Event)
    ensures (history + [event])[|history|] == event && history + [event] != history
  {}

  /** An exit is noted where a phase executes. */
  lemma ExitEvent(m: Machine, action: Action, next: Machine)
    requires StepTo(m, action, next) && |next.history| > |m.history| && next.history[|m.history|].Exited?
    ensures action.Advance? && m.pc.Executing? && !m.args.dryRun
    ensures next == ExitStep(m, action.answers)
  {}

  /** A phase without seeds on the host is stepped over, and costs and restores no attempt. */
  lemma SkipLeaves(states: seq<Machine>, actions: seq<Action>, j: nat, file: nat, k: nat)
    requires FaithfulRun(states, actions) && j < |actions|
    requires states[j + 1].history == states[j].history + [Skipped(file, k)]
    ensures states[j + 1].pc.Idle? && OnlyFile(states[j].files, states[j + 1].files, file)
    ensures var e, after := states[j].files[file].entry, states[j + 1].files[file].entry;
      && e.state == Queued && e.phase == k < e.phases && EntryPhaseSeeds(e.frozen, k) == ""
      && after.phase == k + 1 && after.attempts == e.attempts
      && after.state == if k + 1 < e.phases then Queued else Done
  {
    RunsConsistent(states, actions, j);
    StepOfRun(states, actions, j);
    LastOf(states[j].history, Skipped(file, k));
    SkipEvent(states[j], actions[j], states[j + 1]);
  }

  lemma SkipEvent(m: Machine, action: Action, next: Machine)
    requires StepTo(m, action, next) && |next.history| > |m.history| && next.history[|m.history|].Skipped?
    ensures action.Advance? && m.pc.Entering? && next == EnterStep(m, action.answers)
  {}

  /** A tick that ends on an entry without an event has spent an attempt, or found no phase left, or is a
      dry run that leaves the entry waiting as it was. */
  lemma SilentEndLeaves(states: seq<Machine>, actions: seq<Action>, j: nat)
    requires FaithfulRun(states, actions) && j < |actions| && actions[j].Advance? && Picked(states[j].pc)
    requires states[j + 1].pc.Idle? && states[j + 1].history == states[j].history
    ensures var at := states[j].pc.at; OnlyFile(states[j].files, states[j + 1].files, at)
    ensures var e, after := states[j].files[states[j].pc.at].entry, states[j + 1].files[states[j].pc.at].entry;
      || SpendsAttempt(e, after)
      || (e.phase >= e.phases && after == e.(state := Done))
      || (states[j].args.dryRun && after == e.(state := Queued))
  {
    RunsConsistent(states, actions, j);
    StepOfRun(states, actions, j);
    assert forall event: Event :: states[j].history + [event] != states[j].history;
  }

  /** Recovery spends an attempt of what a dead tick left running, and touches nothing else. */
  lemma RecoveryLeaves(states: seq<Machine>, actions: seq<Action>, j: nat)
    requires FaithfulRun(states, actions) && j < |actions| && actions[j].Advance? && states[j].pc.Recovering?
    ensures states[j + 1].history == states[j].history && !states[j + 1].pc.Idle?
    ensures var k := states[j].pc.next;
      if k < states[j].pc.count && InState(states[j].files, k, Running)
      then OnlyFile(states[j].files, states[j + 1].files, k)
           && SpendsAttempt(states[j].files[k].entry, states[j + 1].files[k].entry)
      else states[j + 1].files == states[j].files
  {
    RunsConsistent(states, actions, j);
    StepOfRun(states, actions, j);
  }

  // -- What a tick picks ------------------------------------------------------------------------

  /** The entry picked waits, belongs to the host asked for, if one is, and no earlier one does both; a
      tick picks nothing only if none does. */
  lemma PickIsFirst(states: seq<Machine>, actions: seq<Action>, j: nat)
    requires QueueRun(states, actions) && j < |actions| && actions[j].Advance? && states[j].pc.Picking?
    ensures states[j + 1].files == states[j].files && (states[j + 1].pc.Chosen? || states[j + 1].pc.Idle?)
    ensures var host := states[j].args.host;
      && (states[j + 1].pc.Chosen? ==>
            var at := states[j + 1].pc.at;
            && at < states[j].pc.count && Waits(states[j].files, at, host)
            && forall i: nat :: i < at ==> !Waits(states[j].files, i, host))
      && (states[j + 1].pc.Idle? ==> forall i: nat :: i < states[j].pc.count ==> !Waits(states[j].files, i, host))
  {
    StepOfRun(states, actions, j);
    forall i: nat ensures Waits(states[j].files, i, states[j].args.host) <==> Ready(states[j].files, i, states[j].args.host) {}
  }

  predicate Waits(files: seq<File>, i: nat, host: Option<string>) {
    i < |files| && files[i].Readable? && files[i].entry.state == Queued
    && (host.Some? ==> files[i].entry.host == host.value)
  }

  // -- What a phase waits for -------------------------------------------------------------------

  /** The tick keeps to one entry from step `from` to step `to`. */
  predicate OnOneEntry(states: seq<Machine>, actions: seq<Action>, from: nat, to: nat, file: nat) {
    && from <= to < |states| && |states| == |actions| + 1
    && (forall k: nat :: from <= k <= to ==> Picked(states[k].pc) && states[k].pc.at == file)
    && forall k: nat :: from <= k < to ==> !actions[k].Kill?
  }

  /** The checkout is the entry's, or is moved to it. */
  predicate CheckoutAccepted(m: Machine, action: Action, file: nat) {
    && m.pc.Chosen? && m.pc.at == file && Placed(m) && action.Advance? && action.answers.checkout == AtCommit
    && (m.files[file].entry.hasCommit ==> m.args.noStage || m.args.dryRun || action.answers.built)
  }

  predicate StagingAccepted(m: Machine, action: Action, file: nat) {
    m.pc.Staging? && m.pc.at == file && action.Advance? && action.answers.staged && !m.args.dryRun
  }

  predicate DeclarationAccepted(m: Machine, action: Action, file: nat, declared: nat) {
    && m.pc.Loading? && m.pc.at == file && action.Advance?
    && action.answers.loads && (action.answers.configured || m.args.dryRun) && action.answers.declared == declared
  }

  /** The checkout was accepted at step `q`. */
  ghost predicate Checked(states: seq<Machine>, actions: seq<Action>, q: nat, i: nat, file: nat) {
    && OnOneEntry(states, actions, q, i, file) && q < i
    && (CheckoutAccepted(states[q], actions[q], file) || StagingAccepted(states[q], actions[q], file))
  }

  /** And the declaration at step `p`. */
  ghost predicate Admitted(states: seq<Machine>, actions: seq<Action>, q: nat, p: nat, i: nat, file: nat, declared: nat) {
    && Checked(states, actions, q, p, file) && OnOneEntry(states, actions, p, i, file) && p < i
    && DeclarationAccepted(states[p], actions[p], file, declared)
  }

  lemma OneEntryStarts(states: seq<Machine>, actions: seq<Action>, from: nat, file: nat)
    requires from < |actions| && |states| == |actions| + 1 && !actions[from].Kill?
    requires Picked(states[from].pc) && states[from].pc.at == file
    requires Picked(states[from + 1].pc) && states[from + 1].pc.at == file
    ensures OnOneEntry(states, actions, from, from + 1, file)
  {}

  lemma OneEntryGrows(states: seq<Machine>, actions: seq<Action>, from: nat, to: nat, file: nat)
    requires OnOneEntry(states, actions, from, to, file) && to < |actions| && !actions[to].Kill?
    requires Picked(states[to + 1].pc) && states[to + 1].pc.at == file
    ensures OnOneEntry(states, actions, from, to + 1, file)
  {}

  /** Where the tick waits to load, its checkout has been accepted. */
  lemma {:induction false} LoadingIsChecked(states: seq<Machine>, actions: seq<Action>, i: nat) returns (q: nat)
    requires QueueRun(states, actions) && i < |states| && states[i].pc.Loading?
    ensures Checked(states, actions, q, i, states[i].pc.at)
  {
    StepOfRun(states, actions, i - 1);
    var m, file := states[i - 1], states[i].pc.at;
    if m.pc.Loading? {
      q := LoadingIsChecked(states, actions, i - 1);
      OneEntryGrows(states, actions, q, i - 1, file);
    } else {
      q := i - 1;
    }
  }

  lemma {:induction false} EnteringIsAdmitted(states: seq<Machine>, actions: seq<Action>, i: nat) returns (q: nat, p: nat)
    requires QueueRun(states, actions) && i < |states| && (states[i].pc.Entering? || states[i].pc.Executing?)
    ensures Admitted(states, actions, q, p, i, states[i].pc.at, states[i].pc.declared)
  {
    hide Checked, OnOneEntry;
    StepOfRun(states, actions, i - 1);
    var m, file := states[i - 1], states[i].pc.at;
    if m.pc.Loading? {
      p := i - 1;
      q := LoadingIsChecked(states, actions, p);
      OneEntryStarts(states, actions, p, file);
    } else {
      q, p := EnteringIsAdmitted(states, actions, i - 1);
      OneEntryGrows(states, actions, p, i - 1, file);
    }
  }

  /** A phase starts only in a tick that found its entry's checkout or staged it, then read the
      declaration and found its configurations, and whose phase is the entry's next, has seeds and is not
      blocked. */
  lemma StartIsEarned(states: seq<Machine>, actions: seq<Action>, j: nat, file: nat, k: nat) returns (q: nat, p: nat)
    requires FaithfulRun(states, actions) && j < |actions|
    requires states[j + 1].history == states[j].history + [Started(file, k)]
    ensures OnlyFile(states[j].files, states[j + 1].files, file)
    ensures Admitted(states, actions, q, p, j, file, states[j].files[file].entry.phases)
    ensures actions[j].Advance? && !actions[j].answers.blocked && !states[j].args.dryRun
    ensures var e := states[j].files[file].entry;
      && e.state == Queued && e.phase == k < e.phases && EntryPhaseSeeds(e.frozen, k) != ""
      && states[j + 1].files[file].entry == e.(state := Running)
  {
    RunsConsistent(states, actions, j);
    StepOfRun(states, actions, j);
    LastOf(states[j].history, Started(file, k));
    StartEvent(states[j], actions[j], states[j + 1]);
    q, p := EnteringIsAdmitted(states, actions, j);
  }

  lemma StartEvent(m: Machine, action: Action, next: Machine)
    requires StepTo(m, action, next) && |next.history| > |m.history| && next.history[|m.history|].Started?
    ensures action.Advance? && m.pc.Entering? && next == EnterStep(m, action.answers)
  {}

  /** Where everything is in order, nothing is spent: the tick goes on to the phase. */
  lemma NothingWrongGoesOn(m: Machine, a: Answers, next: Machine)
    requires Placed(m) && StepTo(m, Advance(a), next) && (m.pc.Chosen? || m.pc.Staging? || m.pc.Loading? || m.pc.Entering?)
    requires m.pc.Chosen? ==> a.checkout == AtCommit && a.built
    requires m.pc.Staging? ==> a.staged && !a.restarts && !m.args.dryRun
    requires m.pc.Loading? ==> a.loads && a.configured
    requires m.pc.Entering? ==> !a.blocked && m.files[m.pc.at].entry.phase < m.pc.declared
                                && EntryPhaseSeeds(m.files[m.pc.at].entry.frozen, m.files[m.pc.at].entry.phase) != ""
    ensures next.pc == if m.pc.Chosen? || m.pc.Staging? then Loading(m.pc.at)
                       else if m.pc.Loading? then Entering(m.pc.at, a.declared) else Executing(m.pc.at, m.pc.declared)
    ensures next.files[m.pc.at].Readable?
    ensures next.files[m.pc.at].entry
         == m.files[m.pc.at].entry.(state := if m.pc.Entering? then Running else Queued)
    ensures m.pc.Entering? && !m.args.dryRun ==> next.history == m.history + [Started(m.pc.at, m.files[m.pc.at].entry.phase)]
  {}

  /** A checkout elsewhere is staged, unless the entry names no commit or staging is refused. */
  lemma ElsewhereIsStaged(m: Machine, a: Answers, next: Machine)
    requires Placed(m) && m.pc.Chosen? && StepTo(m, Advance(a), next) && a.checkout == Elsewhere
    ensures next.pc.Staging? <==> m.files[m.pc.at].entry.hasCommit && !m.args.noStage && !a.refused
    ensures next.files[m.pc.at].Readable?
    ensures if next.pc.Staging? then next.files[m.pc.at].entry == m.files[m.pc.at].entry.(state := Running)
            else next.pc.Idle? && SpendsAttempt(m.files[m.pc.at].entry, next.files[m.pc.at].entry)
  {}

  /** A staging that changed the tick's own scripts starts it over, once. */
  lemma RestartsOnce(m: Machine, a: Answers, next: Machine)
    requires Placed(m) && m.pc.Staging? && StepTo(m, Advance(a), next) && a.staged && !m.args.dryRun
    ensures next.pc == if a.restarts && !m.pc.restarted then Recovering(0, |m.files|, true) else Loading(m.pc.at)
    ensures next.files[m.pc.at] == Readable(m.files[m.pc.at].entry.(state := Queued))
  {}
}
