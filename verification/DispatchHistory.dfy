/** What a whole run of a dispatch shows: in which order its items are queued and taken, and what becomes
    of an exception. */
module DispatchHistories {
  import opened BoundedAsync
  import opened Dispatch
  import opened Runs
  import ThreadPools
  import opened Wrappers

  // -- The order of launches --------------------------------------------------------------------

  /** What a step puts at the back of a queue. */
  function Appended(before: seq<Job>, after: seq<Job>): seq<Job> {
    if before <= after then after[|before|..] else []
  }

  /** The items of the dispatch a step queues, whichever queue they join. */
  function QueuedIn(s: State, t: State): seq<nat> {
    MineOf(Appended(s.pool.tasks, t.pool.tasks)) + MineOf(Appended(s.pool.background, t.pool.background))
  }

  function QueuedItems(states: seq<State>, i: nat): seq<nat>
    requires i < |states|
  {
    if i == 0 then [] else QueuedItems(states, i - 1) + QueuedIn(states[i - 1], states[i])
  }

  /** The item of the dispatch a step gives to a worker, if it does. */
  function TakenIn(s: State, a: Action, t: State): seq<nat> {
    if IsTake(s, a) && a.worker < |t.workers| && t.workers[a.worker].Running? && t.workers[a.worker].job.Mine?
    then [t.workers[a.worker].job.index] else []
  }

  function TakenItems(states: seq<State>, actions: seq<Action>, i: nat): seq<nat>
    requires i <= |actions| && |states| == |actions| + 1
  {
    if i == 0 then [] else TakenItems(states, actions, i - 1) + TakenIn(states[i - 1], actions[i - 1], states[i])
  }

  lemma AppendedIs(q: seq<Job>, more: seq<Job>)
    ensures Appended(q, q + more) == more
    ensures Appended(q, q) == []
  {}

  lemma AppendedNone(q: seq<Job>)
    requires q != []
    ensures Appended(q, q[1..]) == []
  {}

  lemma MineOfOne(job: Job)
    ensures MineOf([job]) == if job.Mine? then [job.index] else []
  {
    assert [job][1..] == [];
  }

  lemma MainQueues(c: Config, s: State, fails: bool, t: State)
    requires Inv(c, s) && MainStep(c, s, fails) == Some(t)
    ensures t.launched >= s.launched && QueuedIn(s, t) == Plan(c)[s.launched..t.launched]
  {
    hide Conserved, Counted, Bounded, Settled;
    if s.pc.Submitting? && !fails {
      var job := Mine(Plan(c)[s.pc.slot]);
      AppendedIs(s.pool.tasks, [job]);
      AppendedIs(s.pool.background, [job]);
      MineOfOne(job);
    } else {
      assert t.pool == s.pool && t.launched == s.launched;
    }
  }

  lemma WorkerQueues(s: State, w: nat, fails: bool, t: State)
    requires w < |s.workers| && WorkerStep(s, w, fails) == Some(t)
    ensures t.launched == s.launched && QueuedIn(s, t) == []
  {
    if s.workers[w].Idle? {
      if s.pool.tasks != [] { AppendedNone(s.pool.tasks); } else { AppendedNone(s.pool.background); }
    }
  }

  lemma StepQueues(c: Config, s: State, a: Action, t: State)
    requires Inv(c, s) && StepTo(c, s, a, t)
    ensures t.launched >= s.launched && t.launched <= c.n && QueuedIn(s, t) == Plan(c)[s.launched..t.launched]
  {
    StepKeepsInv(c, s, a, t);
    match a {
      case Main(fails) => MainQueues(c, s, fails, t);
      case Work(w, fails) => WorkerQueues(s, w, fails, t);
      case Outside(id, priority) =>
        AppendedIs(s.pool.tasks, [Foreign(id)]);
        AppendedIs(s.pool.background, [Foreign(id)]);
        MineOfOne(Foreign(id));
    }
  }

  lemma {:induction false} QueuedArePlanned(c: Config, states: seq<State>, actions: seq<Action>, i: nat)
    requires Run(c, states, actions) && i < |states|
    ensures states[i].launched <= c.n && QueuedItems(states, i) == Plan(c)[..states[i].launched]
  {
    hide Inv, StepTo, QueuedIn, Plan;
    if i > 0 {
      QueuedArePlanned(c, states, actions, i - 1);
      RunsKeepInv(c, states, actions, i - 1);
      assert Follows((s: State, a: Action, t: State) => StepTo(c, s, a, t), states, actions, i - 1);
      StepQueues(c, states[i - 1], actions[i - 1], states[i]);
      PrefixGrows(Plan(c), states[i - 1].launched, states[i].launched);
    }
  }

  lemma PrefixGrows(plan: seq<nat>, k: nat, n: nat)
    requires k <= n <= |plan|
    ensures plan[..k] + plan[k..n] == plan[..n]
  {
  }

  /** The order given, or that of the indices. */
  lemma PlanIsGiven(c: Config, k: nat)
    requires ValidConfig(c) && k < c.n
    ensures Plan(c)[k] == if c.order != [] then c.order[k] else k
  {}

  /** In every run the `k`-th item queued is the `k`-th of the order given, or item `k` where none is;
      at a return all have been. */
  lemma ItemsQueueInOrder(c: Config, states: seq<State>, actions: seq<Action>, i: nat)
    requires Run(c, states, actions) && i < |states|
    ensures |QueuedItems(states, i)| <= c.n
    ensures forall k: nat :: k < |QueuedItems(states, i)| ==>
              QueuedItems(states, i)[k] == if c.order != [] then c.order[k] else k
    ensures states[i].pc.Returned? ==> |QueuedItems(states, i)| == c.n
  {
    QueuedArePlanned(c, states, actions, i);
    RunsAreSafe(c, states, actions, i);
    forall k: nat | k < |QueuedItems(states, i)|
      ensures QueuedItems(states, i)[k] == if c.order != [] then c.order[k] else k
    {
      PlanIsGiven(c, k);
    }
  }

  // -- The order of starts ----------------------------------------------------------------------

  /** The items taken are those launched and no longer queued. */
  ghost predicate TakenSoFar(c: Config, s: State, taken: seq<nat>)
    requires ValidConfig(c)
  {
    Fifo(c, s) && taken == Plan(c)[..s.launched - |MineOf(Ours(c, s.pool))|]
  }

  lemma MainTakes(c: Config, s: State, fails: bool, t: State, taken: seq<nat>)
    requires Inv(c, s) && TakenSoFar(c, s, taken) && MainStep(c, s, fails) == Some(t)
    ensures TakenSoFar(c, t, taken)
  {
    hide Conserved, Counted, Bounded, Settled;
    MainKeepsFifo(c, s, fails, t);
    if s.pc.Submitting? && !fails {
      MineOfAppends(Ours(c, s.pool), Mine(Plan(c)[s.pc.slot]));
    } else {
      assert t.pool == s.pool && t.launched == s.launched;
    }
  }

  lemma WorkerTakes(c: Config, s: State, w: nat, fails: bool, t: State, taken: seq<nat>)
    requires ValidConfig(c) && TakenSoFar(c, s, taken) && w < |s.workers| && WorkerStep(s, w, fails) == Some(t)
    ensures TakenSoFar(c, t, taken + TakenIn(s, Work(w, fails), t))
  {
    hide Plan, MineOf;
    WorkerKeepsFifo(c, s, w, fails, t);
    if s.workers[w].Idle? {
      TakeKeepsFifo(c, s, w);
      FrontTaken(c, s.pool);
      if ThreadPools.Front(s.pool).Mine? { PrefixExtends(Plan(c), |taken|); }
    } else {
      assert t.pool == s.pool;
    }
  }

  lemma PrefixExtends(plan: seq<nat>, k: nat)
    requires k < |plan|
    ensures plan[..k] + [plan[k]] == plan[..k + 1]
  {}

  lemma OutsideTakes(c: Config, s: State, id: nat, priority: ThreadPools.Priority, t: State, taken: seq<nat>)
    requires Inv(c, s) && TakenSoFar(c, s, taken) && StepTo(c, s, Outside(id, priority), t)
    ensures TakenSoFar(c, t, taken)
  {
    OutsideKeepsFifo(c, s, id, priority, t);
    MineOfAppends(s.pool.tasks, Foreign(id));
    MineOfAppends(s.pool.background, Foreign(id));
  }

  lemma {:induction false} TakenArePlanned(c: Config, states: seq<State>, actions: seq<Action>, i: nat)
    requires Run(c, states, actions) && i < |states|
    ensures TakenSoFar(c, states[i], TakenItems(states, actions, i))
  {
    RunsAreFifo(c, states, actions, i);
    if i == 0 {
      NothingMine(states[0].pool.tasks);
      NothingMine(states[0].pool.background);
    } else {
      TakenArePlanned(c, states, actions, i - 1);
      RunsKeepInv(c, states, actions, i - 1);
      assert Follows((s: State, a: Action, t: State) => StepTo(c, s, a, t), states, actions, i - 1);
      StepTakes(c, states[i - 1], actions[i - 1], states[i], TakenItems(states, actions, i - 1));
    }
  }

  lemma StepTakes(c: Config, s: State, a: Action, t: State, taken: seq<nat>)
    requires Inv(c, s) && TakenSoFar(c, s, taken) && StepTo(c, s, a, t)
    ensures TakenSoFar(c, t, taken + TakenIn(s, a, t))
  {
    hide TakenSoFar;
    match a {
      case Main(fails) => MainTakes(c, s, fails, t, taken); assert taken + [] == taken;
      case Work(w, fails) => WorkerTakes(c, s, w, fails, t, taken);
      case Outside(id, priority) => OutsideTakes(c, s, id, priority, t, taken); assert taken + [] == taken;
    }
  }

  /** And the `k`-th item a worker takes is so too. */
  lemma ItemsStartInOrder(c: Config, states: seq<State>, actions: seq<Action>, i: nat)
    requires Run(c, states, actions) && i < |states|
    ensures |TakenItems(states, actions, i)| <= c.n
    ensures forall k: nat :: k < |TakenItems(states, actions, i)| ==>
              TakenItems(states, actions, i)[k] == if c.order != [] then c.order[k] else k
  {
    TakenArePlanned(c, states, actions, i);
    forall k: nat | k < |TakenItems(states, actions, i)|
      ensures TakenItems(states, actions, i)[k] == if c.order != [] then c.order[k] else k
    {
      PlanIsGiven(c, k);
    }
  }

  // -- The order of results ---------------------------------------------------------------------

  /** The item whose result a step hands in. */
  function ReportedIn(s: State, a: Action): seq<nat> {
    if a.Work? && a.worker < |s.workers| && s.workers[a.worker].Reporting? then [s.workers[a.worker].report.index] else []
  }

  function ReportedItems(states: seq<State>, actions: seq<Action>, i: nat): seq<nat>
    requires i <= |actions| && |states| == |actions| + 1
  {
    if i == 0 then [] else ReportedItems(states, actions, i - 1) + ReportedIn(states[i - 1], actions[i - 1])
  }

  /** The item whose result the dispatcher takes in a step, to complete it or to drop it. */
  function CollectedIn(s: State, t: State): seq<nat> {
    if t.pc.Completing? && !s.pc.Completing? then [t.pc.report.index]
    else if s.pc.DrainWait? && t.pc.Draining? && t.dropped != [] then [t.dropped[|t.dropped| - 1]]
    else []
  }

  function CollectedItems(states: seq<State>, i: nat): seq<nat>
    requires i < |states|
  {
    if i == 0 then [] else CollectedItems(states, i - 1) + CollectedIn(states[i - 1], states[i])
  }

  function ItemsOf(done: seq<Report>): seq<nat> {
    seq(|done|, i requires 0 <= i < |done| => done[i].index)
  }

  lemma StepCollects(c: Config, s: State, a: Action, t: State)
    requires StepTo(c, s, a, t)
    ensures CollectedIn(s, t) + ItemsOf(t.done) == ItemsOf(s.done) + ReportedIn(s, a)
  {
    match a {
      case Main(fails) => MainCollects(c, s, fails, t);
      case Work(w, fails) => WorkerCollects(s, w, fails, t);
      case Outside(_, _) =>
    }
  }

  lemma MainCollects(c: Config, s: State, fails: bool, t: State)
    requires ValidConfig(c) && Placed(c, s.pc) && MainStep(c, s, fails) == Some(t)
    ensures CollectedIn(s, t) + ItemsOf(t.done) == ItemsOf(s.done)
  {
    hide ThreadPools.Enqueue;
    if t.done != s.done { assert s.done == [s.done[0]] + t.done; }
  }

  lemma WorkerCollects(s: State, w: nat, fails: bool, t: State)
    requires w < |s.workers| && WorkerStep(s, w, fails) == Some(t)
    ensures CollectedIn(s, t) + ItemsOf(t.done) == ItemsOf(s.done) + ReportedIn(s, Work(w, fails))
  {
    assert s.workers[w].Reporting? ==> t.done == s.done + [s.workers[w].report];
  }

  lemma Regroup(a: seq<nat>, b: seq<nat>, c: seq<nat>, d: seq<nat>, e: seq<nat>)
    requires b + c == d + e
    ensures (a + b) + c == (a + d) + e
  {
    assert (a + b) + c == a + (b + c) && (a + d) + e == a + (d + e);
  }

  /** Results reach the dispatcher in the order they are handed in. */
  lemma {:induction false} ResultsComeInOrder(c: Config, states: seq<State>, actions: seq<Action>, i: nat)
    requires Run(c, states, actions) && i < |states|
    ensures CollectedItems(states, i) + ItemsOf(states[i].done) == ReportedItems(states, actions, i)
  {
    if i > 0 {
      ResultsComeInOrder(c, states, actions, i - 1);
      var s, a, t := states[i - 1], actions[i - 1], states[i];
      assert Follows((s: State, a: Action, t: State) => StepTo(c, s, a, t), states, actions, i - 1);
      StepCollects(c, s, a, t);
      Regroup(CollectedItems(states, i - 1), CollectedIn(s, t), ItemsOf(t.done), ItemsOf(s.done), ReportedIn(s, a));
    }
  }

  // -- What becomes of an exception -------------------------------------------------------------

  /** The exception of item `i` is on its way to the dispatcher, or has reached it. */
  ghost predicate Carried(s: State, i: nat) {
    || (exists w :: 0 <= w < |s.workers| && s.workers[w] == Reporting(Report(i, true)))
    || Report(i, true) in s.done
    || (s.pc.Completing? && s.pc.report == Report(i, true))
    || i in s.dropped
  }

  lemma MainCarries(c: Config, s: State, fails: bool, t: State, i: nat)
    requires ValidConfig(c) && Placed(c, s.pc) && MainStep(c, s, fails) == Some(t) && Carried(s, i)
    ensures Carried(t, i)
  {
    assert t.workers == s.workers;
    if Report(i, true) in s.done && t.done != s.done {
      assert t.done == s.done[1..];
      assert s.done == [s.done[0]] + t.done;
    }
  }

  lemma WorkerCarries(s: State, w: nat, fails: bool, t: State, i: nat)
    requires w < |s.workers| && WorkerStep(s, w, fails) == Some(t) && Carried(s, i)
    ensures Carried(t, i)
  {
    if v :| 0 <= v < |s.workers| && s.workers[v] == Reporting(Report(i, true)) {
      if v == w { assert t.done[|s.done|] == Report(i, true); } else { assert t.workers[v] == s.workers[v]; }
    }
  }

  lemma StepCarries(c: Config, s: State, a: Action, t: State, i: nat)
    requires StepTo(c, s, a, t) && Carried(s, i)
    ensures Carried(t, i)
  {
    match a {
      case Main(fails) => MainCarries(c, s, fails, t, i);
      case Work(w, fails) => WorkerCarries(s, w, fails, t, i);
      case Outside(_, _) => assert t.workers == s.workers;
    }
  }

  lemma {:induction false} InWorkers(ws: seq<Worker>, w: nat, i: nat)
    requires w < |ws| && ws[w] == Reporting(Report(i, true))
    ensures WorkersTally(ws, Only(i)) > 0
  {
    if w > 0 { InWorkers(ws[1..], w - 1, i); }
  }

  lemma {:induction false} InDone(done: seq<Report>, i: nat)
    requires Report(i, true) in done
    ensures DoneTally(done, Only(i)) > 0
  {
    if done[0] != Report(i, true) { InDone(done[1..], i); }
  }

  lemma InItems(items: seq<nat>, i: nat)
    ensures i in items <==> ItemsTally(items, Only(i)) > 0
  {
    ItemsTallyCounts(items, i);
  }

  /** An item whose exception is carried is in one place only, and that is not among the completed. */
  lemma CarriedIsNotCompleted(c: Config, s: State, i: nat)
    requires Inv(c, s) && Carried(s, i)
    ensures i !in s.completed
  {
    hide Counted, Control;
    InItems(s.completed, i);
    InItems(s.dropped, i);
    if w :| 0 <= w < |s.workers| && s.workers[w] == Reporting(Report(i, true)) { InWorkers(s.workers, w, i); }
    if Report(i, true) in s.done { InDone(s.done, i); }
    AtMostOnePlace(c, s, i);
  }

  lemma AtMostOnePlace(c: Config, s: State, i: nat)
    requires Inv(c, s)
    ensures Tally(s, Only(i)) <= 1
  {
    hide Counted, Control, Tally;
    var prefix := Plan(c)[..s.launched];
    PlanPermutes(c);
    ItemsTallyCounts(prefix, i);
    OccursOnce(prefix, i);
  }

  lemma {:induction false} CompletedGrows(c: Config, states: seq<State>, actions: seq<Action>, i: nat, j: nat)
    requires Run(c, states, actions) && i <= j < |states|
    ensures states[i].completed <= states[j].completed
  {
    if i < j {
      CompletedGrows(c, states, actions, i, j - 1);
      assert Follows((s: State, a: Action, t: State) => StepTo(c, s, a, t), states, actions, j - 1);
      StepKeepsCompleted(c, states[j - 1], actions[j - 1], states[j]);
    }
  }

  lemma StepKeepsCompleted(c: Config, s: State, a: Action, t: State)
    requires StepTo(c, s, a, t)
    ensures s.completed <= t.completed
  {}

  lemma CarriedOn(c: Config, states: seq<State>, actions: seq<Action>, i: nat, j: nat, item: nat)
    requires Run(c, states, actions) && i <= j < |states| && Carried(states[i], item)
    ensures Carried(states[j], item)
  {
    forall s: State, a: Action, t: State | Carried(s, item) && StepTo(c, s, a, t) ensures Carried(t, item) {
      StepCarries(c, s, a, t, item);
    }
    InvarianceFrom((s: State, a: Action, t: State) => StepTo(c, s, a, t), (s: State) => Carried(s, item),
                   (a: Action) => true, states, actions, i, j);
  }

  /** A task runs and throws at step `j`. */
  predicate ThrowsAt(states: seq<State>, actions: seq<Action>, j: nat, item: nat) {
    && j < |actions| && |states| == |actions| + 1
    && actions[j].Work? && actions[j].fails && actions[j].worker < |states[j].workers|
    && states[j].workers[actions[j].worker] == Running(Mine(item))
  }

  lemma ThrowReports(c: Config, states: seq<State>, actions: seq<Action>, j: nat, item: nat)
    requires Run(c, states, actions) && ThrowsAt(states, actions, j, item)
    ensures states[j + 1].workers == states[j].workers[actions[j].worker := Reporting(Report(item, true))]
    ensures Carried(states[j + 1], item) && FailurePending(states[j + 1])
  {
    assert Follows((s: State, a: Action, t: State) => StepTo(c, s, a, t), states, actions, j);
    assert states[j + 1].workers[actions[j].worker] == Reporting(Report(item, true));
  }

  /** A task that throws is never completed, and the dispatch does not return. */
  lemma ThrowingTaskIsRaised(c: Config, states: seq<State>, actions: seq<Action>, j: nat, item: nat, k: nat)
    requires Run(c, states, actions) && ThrowsAt(states, actions, j, item) && k < |states|
    ensures item !in states[k].completed
    ensures k > j ==> !states[k].pc.Returned?
  {
    ThrowReports(c, states, actions, j, item);
    var late := if k > j then k else j + 1;
    CarriedOn(c, states, actions, j + 1, late, item);
    RunsKeepInv(c, states, actions, late);
    CarriedIsNotCompleted(c, states[late], item);
    CompletedGrows(c, states, actions, k, late);
    FailuresAreRaised(c, states, actions, j + 1, late);
  }

  /** The caller's code throws in the dispatcher at step `j`: building an item's task, queuing it, or
      handling a result. */
  predicate CallerThrowsAt(states: seq<State>, actions: seq<Action>, j: nat) {
    && j < |actions| && |states| == |actions| + 1 && actions[j] == Main(true)
    && (states[j].pc.Building? || states[j].pc.Submitting? || states[j].pc.Completing?)
  }

  lemma {:induction false} UnwindingStays(c: Config, states: seq<State>, actions: seq<Action>, i: nat, k: nat)
    requires Run(c, states, actions) && i <= k < |states| && Unwinding(states[i].pc)
    ensures Unwinding(states[k].pc) && states[k].launched == states[i].launched
    ensures states[k].completed == states[i].completed
  {
    if i < k {
      UnwindingStays(c, states, actions, i, k - 1);
      assert Follows((s: State, a: Action, t: State) => StepTo(c, s, a, t), states, actions, k - 1);
    }
  }

  /** From then on nothing is launched or completed any more, and the dispatch does not return. */
  lemma CallerThrowIsRaised(c: Config, states: seq<State>, actions: seq<Action>, j: nat, k: nat)
    requires Run(c, states, actions) && CallerThrowsAt(states, actions, j) && j < k < |states|
    ensures !states[k].pc.Returned?
    ensures states[k].launched == states[j].launched && states[k].completed == states[j].completed
  {
    assert Follows((s: State, a: Action, t: State) => StepTo(c, s, a, t), states, actions, j);
    UnwindingStays(c, states, actions, j + 1, k);
  }

  /** A run that cannot go on ends in a throw exactly when something threw in it. */
  lemma ThrowsExactlyWhenThrown(c: Config, states: seq<State>, actions: seq<Action>)
    requires Run(c, states, actions) && |states[0].workers| > 0 && Stuck(c, states[|actions|])
    ensures states[|actions|].pc.Threw?
       <==> (exists j, item :: ThrowsAt(states, actions, j, item)) || exists j :: CallerThrowsAt(states, actions, j)
    ensures !states[|actions|].pc.Threw? ==> states[|actions|].pc.Returned?
  {
    var n := |actions|;
    MaximalRunsEnd(c, states, actions);
    if j, item :| ThrowsAt(states, actions, j, item) { ThrowingTaskIsRaised(c, states, actions, j, item, n); }
    if j :| CallerThrowsAt(states, actions, j) { CallerThrowIsRaised(c, states, actions, j, n); }
    if (forall j, item :: !ThrowsAt(states, actions, j, item)) && forall j :: !CallerThrowsAt(states, actions, j) {
      UntroubledRun(c, states, actions, n);
    }
  }

  /** Where nothing throws the dispatcher never unwinds, whatever a step that runs no code is said to do. */
  lemma {:induction false} UntroubledRun(c: Config, states: seq<State>, actions: seq<Action>, i: nat)
    requires Run(c, states, actions) && i < |states|
    requires forall j, item :: !ThrowsAt(states, actions, j, item)
    requires forall j :: !CallerThrowsAt(states, actions, j)
    ensures Untroubled(states[i])
  {
    if i > 0 {
      UntroubledRun(c, states, actions, i - 1);
      assert Follows((s: State, a: Action, t: State) => StepTo(c, s, a, t), states, actions, i - 1);
      match actions[i - 1] {
        case Main(_) => assert !CallerThrowsAt(states, actions, i - 1);
        case Work(w, _) => QuietWorker(states, actions, i - 1, w);
        case Outside(_, _) =>
      }
    }
  }

  lemma QuietWorker(states: seq<State>, actions: seq<Action>, j: nat, w: nat)
    requires |states| == |actions| + 1 && j < |actions| && actions[j].Work? && actions[j].worker == w
    requires forall item :: !ThrowsAt(states, actions, j, item)
    requires w < |states[j].workers| && WorkerStep(states[j], w, actions[j].fails) == Some(states[j + 1])
    requires Untroubled(states[j])
    ensures Untroubled(states[j + 1])
  {
    var worker := states[j].workers[w];
    if worker.Running? && worker.job.Mine? { assert !ThrowsAt(states, actions, j, worker.job.index); }
    assert worker.Reporting? ==> !worker.report.failed;
  }
}
