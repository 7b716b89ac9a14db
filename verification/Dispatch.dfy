/** The dispatch protocol as a transition system: one dispatcher, the workers of a pool it shares with
    other callers, and an exception possible wherever the original can throw. */
module Dispatch {
  import opened BoundedAsync
  import opened Runs
  import opened Sequences
  import opened ThreadPools
  import opened Wrappers

  /** A queued task: one of this dispatch, or one some other caller submitted to the same pool. */
  datatype Job = Mine(index: nat) | Foreign(id: nat)

  datatype Report = Report(index: nat, failed: bool)

  datatype Worker = Idle | Running(job: Job) | Reporting(report: Report)

  datatype Config = Config(n: nat, maxInFlight: nat, order: seq<nat>, priority: Priority)

  predicate ValidConfig(c: Config) {
    c.order == [] || IsPermutation(c.order, c.n)
  }

  function Window(c: Config): nat {
    if c.maxInFlight == 0 then 1 else c.maxInFlight
  }

  function Plan(c: Config): (plan: seq<nat>)
    requires ValidConfig(c)
    ensures |plan| == c.n
  {
    Launches(c.order, c.n)
  }

  /** Where the dispatcher stands. */
  datatype Pc =
    | AtSlot(slot: nat)       // the head of the launch loop
    | WaitSlot(slot: nat)     // the window is full: blocked until a result arrives
    | Building(slot: nat)     // about to call make_task
    | Submitting(slot: nat)   // the counter is raised, the item not yet queued
    | Final                   // the head of the loop that collects the rest
    | WaitFinal
    | Completing(report: Report, slot: nat, last: bool)   // a result is taken, on_complete not yet called
    | Draining                // unwinding: the head of the drain loop
    | DrainWait
    | Returned
    | Threw

  datatype State = State(
    pc: Pc, outstanding: int, done: seq<Report>, pool: Queues<Job>, workers: seq<Worker>,
    launched: nat, completed: seq<nat>, dropped: seq<nat>)

  function InFlight(s: State): int {
    s.outstanding + |s.done|
  }

  predicate Finished(pc: Pc) {
    pc.Returned? || pc.Threw?
  }

  predicate Unwinding(pc: Pc) {
    pc.Draining? || pc.DrainWait? || pc.Threw?
  }

  predicate Blocks(pc: Pc) {
    pc.WaitSlot? || pc.WaitFinal? || pc.DrainWait?
  }

  /** The slots the launch loop can be at. */
  predicate Placed(c: Config, pc: Pc) {
    && (pc.AtSlot? ==> pc.slot <= c.n)
    && (pc.WaitSlot? || pc.Building? || pc.Submitting? || (pc.Completing? && !pc.last) ==> pc.slot < c.n)
  }

  // -- Steps ------------------------------------------------------------------------------------

  /** One step of the dispatcher; `fails` is whether the caller's code in it throws. None: it blocks. */
  function MainStep(c: Config, s: State, fails: bool): Option<State>
    requires ValidConfig(c) && Placed(c, s.pc)
  {
    match s.pc
    case AtSlot(k) =>
      Some(s.(pc := if k == c.n then Final else if InFlight(s) >= Window(c) then WaitSlot(k) else Building(k)))
    case WaitSlot(k) => Collect(s, k, false)
    case Building(k) =>
      if fails then Some(s.(pc := Draining)) else Some(s.(pc := Submitting(k), outstanding := s.outstanding + 1))
    case Submitting(k) =>
      if fails then Some(s.(pc := Draining, outstanding := s.outstanding - 1))
      else Some(s.(pc := AtSlot(k + 1), launched := k + 1,
                   pool := Enqueue(s.pool, Mine(Plan(c)[k]), c.priority)))
    case Final => Some(s.(pc := if InFlight(s) > 0 then WaitFinal else Returned))
    case WaitFinal => Collect(s, 0, true)
    case Completing(r, k, last) =>
      if r.failed || fails then Some(s.(pc := Draining, dropped := s.dropped + [r.index]))
      else Some(s.(pc := if last then Final else Building(k), completed := s.completed + [r.index]))
    case Draining => Some(s.(pc := if InFlight(s) > 0 then DrainWait else Threw))
    case DrainWait =>
      if s.done == [] then None
      else Some(s.(pc := Draining, done := s.done[1..], dropped := s.dropped + [s.done[0].index]))
    case _ => None
  }

  function Collect(s: State, slot: nat, last: bool): Option<State> {
    if s.done == [] then None else Some(s.(pc := Completing(s.done[0], slot, last), done := s.done[1..]))
  }

  /** One step of worker `w`: take a task, run it, report its result. */
  function WorkerStep(s: State, w: nat, fails: bool): Option<State>
    requires w < |s.workers|
  {
    match s.workers[w]
    case Idle =>
      if Nothing(s.pool) then None
      else Some(s.(pool := Rest(s.pool), workers := s.workers[w := Running(Front(s.pool))]))
    case Running(Foreign(_)) => Some(s.(workers := s.workers[w := Idle]))
    case Running(Mine(i)) => Some(s.(workers := s.workers[w := Reporting(Report(i, fails))]))
    case Reporting(r) =>
      Some(s.(workers := s.workers[w := Idle], done := s.done + [r], outstanding := s.outstanding - 1))
  }

  datatype Action = Main(fails: bool) | Work(worker: nat, fails: bool) | Outside(id: nat, priority: Priority)

  function Step(c: Config, s: State, a: Action): Option<State>
    requires ValidConfig(c) && Placed(c, s.pc)
  {
    match a
    case Main(fails) => MainStep(c, s, fails)
    case Work(w, fails) => if w < |s.workers| then WorkerStep(s, w, fails) else None
    case Outside(id, priority) => Some(s.(pool := Enqueue(s.pool, Foreign(id), priority)))
  }

  /** Action `a` leads from `s` to `t`. */
  predicate StepTo(c: Config, s: State, a: Action, t: State) {
    ValidConfig(c) && Placed(c, s.pc) && Step(c, s, a) == Some(t)
  }

  // -- Where the launched tasks are -------------------------------------------------------------

  /** A number for every item; summed over the places an item can be. */
  type Weights = nat -> nat

  ghost function One(): Weights { (i: nat) => 1 }
  ghost function Only(x: nat): Weights { (i: nat) => if i == x then 1 else 0 }

  ghost function JobTally(job: Job, f: Weights): nat {
    if job.Mine? then f(job.index) else 0
  }

  ghost function QueueTally(q: seq<Job>, f: Weights): nat {
    if |q| == 0 then 0 else JobTally(q[0], f) + QueueTally(q[1..], f)
  }

  ghost function WorkerTally(w: Worker, f: Weights): nat {
    match w
    case Idle => 0
    case Running(job) => JobTally(job, f)
    case Reporting(r) => f(r.index)
  }

  ghost function WorkersTally(ws: seq<Worker>, f: Weights): nat {
    if |ws| == 0 then 0 else WorkerTally(ws[0], f) + WorkersTally(ws[1..], f)
  }

  ghost function DoneTally(done: seq<Report>, f: Weights): nat {
    if |done| == 0 then 0 else f(done[0].index) + DoneTally(done[1..], f)
  }

  ghost function ItemsTally(items: seq<nat>, f: Weights): nat {
    if |items| == 0 then 0 else ItemsTally(items[..|items| - 1], f) + f(items[|items| - 1])
  }

  ghost function PoolTally(q: Queues<Job>, f: Weights): nat {
    QueueTally(q.tasks, f) + QueueTally(q.background, f)
  }

  /** Over the launched tasks that are queued, running or about to report. */
  ghost function UnfinishedTally(s: State, f: Weights): nat {
    PoolTally(s.pool, f) + WorkersTally(s.workers, f)
  }

  ghost function HeldTally(pc: Pc, f: Weights): nat {
    if pc.Completing? then f(pc.report.index) else 0
  }

  /** Over every place a launched item can be. */
  ghost function Tally(s: State, f: Weights): nat {
    UnfinishedTally(s, f) + DoneTally(s.done, f) + HeldTally(s.pc, f)
    + ItemsTally(s.completed, f) + ItemsTally(s.dropped, f)
  }

  lemma {:induction false} QueueTallyAppends(q: seq<Job>, job: Job, f: Weights)
    ensures QueueTally(q + [job], f) == QueueTally(q, f) + JobTally(job, f)
  {
    if |q| == 0 {
      assert q + [job] == [job] && [job][1..] == [];
    } else {
      assert (q + [job])[1..] == q[1..] + [job];
      QueueTallyAppends(q[1..], job, f);
    }
  }

  lemma PoolTallyEnqueues(q: Queues<Job>, job: Job, priority: Priority, f: Weights)
    ensures PoolTally(Enqueue(q, job, priority), f) == PoolTally(q, f) + JobTally(job, f)
  {
    QueueTallyAppends(q.tasks, job, f);
    QueueTallyAppends(q.background, job, f);
  }

  lemma PoolTallyTakes(q: Queues<Job>, f: Weights)
    requires !Nothing(q)
    ensures PoolTally(q, f) == JobTally(Front(q), f) + PoolTally(Rest(q), f)
  {}

  lemma {:induction false} WorkersTallyUpdates(ws: seq<Worker>, w: nat, to: Worker, f: Weights)
    requires w < |ws|
    ensures WorkersTally(ws[w := to], f) + WorkerTally(ws[w], f) == WorkersTally(ws, f) + WorkerTally(to, f)
  {
    if w == 0 {
      assert ws[0 := to][1..] == ws[1..];
    } else {
      assert ws[w := to][1..] == ws[1..][w - 1 := to];
      WorkersTallyUpdates(ws[1..], w - 1, to, f);
    }
  }

  lemma {:induction false} DoneTallyAppends(done: seq<Report>, r: Report, f: Weights)
    ensures DoneTally(done + [r], f) == DoneTally(done, f) + f(r.index)
  {
    if |done| == 0 {
      assert done + [r] == [r] && [r][1..] == [];
    } else {
      assert (done + [r])[1..] == done[1..] + [r];
      DoneTallyAppends(done[1..], r, f);
    }
  }

  lemma ItemsTallyAppends(items: seq<nat>, x: nat, f: Weights)
    ensures ItemsTally(items + [x], f) == ItemsTally(items, f) + f(x)
  {
    assert (items + [x])[..|items|] == items;
  }

  // -- Steps move tasks about -------------------------------------------------------------------

  lemma MainTally(c: Config, s: State, fails: bool, t: State, f: Weights)
    requires ValidConfig(c) && Placed(c, s.pc) && MainStep(c, s, fails) == Some(t)
    ensures Tally(t, f) == Tally(s, f) + if s.pc.Submitting? && !fails then f(Plan(c)[s.pc.slot]) else 0
    ensures UnfinishedTally(t, f) == UnfinishedTally(s, f) + if s.pc.Submitting? && !fails then f(Plan(c)[s.pc.slot]) else 0
  {
    hide Tally, UnfinishedTally;
    if s.pc.Submitting? && !fails { SubmitTally(c, s, t, f); }
    else if s.pc.WaitSlot? || s.pc.WaitFinal? { CollectTally(c, s, fails, t, f); }
    else if s.pc.Completing? { CompleteTally(c, s, fails, t, f); }
    else if s.pc.DrainWait? { DrainTally(c, s, fails, t, f); }
    else { MovesNothing(c, s, fails, t, f); }
  }

  lemma SubmitTally(c: Config, s: State, t: State, f: Weights)
    requires ValidConfig(c) && Placed(c, s.pc) && s.pc.Submitting? && MainStep(c, s, false) == Some(t)
    ensures UnfinishedTally(t, f) == UnfinishedTally(s, f) + f(Plan(c)[s.pc.slot])
    ensures Tally(t, f) == Tally(s, f) + f(Plan(c)[s.pc.slot])
  {
    PoolTallyEnqueues(s.pool, Mine(Plan(c)[s.pc.slot]), c.priority, f);
  }

  /** The front result goes from the queue to the dispatcher's hand. */
  lemma CollectTally(c: Config, s: State, fails: bool, t: State, f: Weights)
    requires ValidConfig(c) && Placed(c, s.pc) && (s.pc.WaitSlot? || s.pc.WaitFinal?) && MainStep(c, s, fails) == Some(t)
    ensures UnfinishedTally(t, f) == UnfinishedTally(s, f) && Tally(t, f) == Tally(s, f)
  {
    hide QueueTally, WorkersTally;
  }

  /** The result in hand goes to the completed or to the dropped. */
  lemma CompleteTally(c: Config, s: State, fails: bool, t: State, f: Weights)
    requires ValidConfig(c) && Placed(c, s.pc) && s.pc.Completing? && MainStep(c, s, fails) == Some(t)
    ensures UnfinishedTally(t, f) == UnfinishedTally(s, f) && Tally(t, f) == Tally(s, f)
  {
    hide QueueTally, WorkersTally, DoneTally;
    ItemsTallyAppends(s.completed, s.pc.report.index, f);
    ItemsTallyAppends(s.dropped, s.pc.report.index, f);
  }

  /** The front result goes from the queue to the dropped. */
  lemma DrainTally(c: Config, s: State, fails: bool, t: State, f: Weights)
    requires ValidConfig(c) && Placed(c, s.pc) && s.pc.DrainWait? && MainStep(c, s, fails) == Some(t)
    ensures UnfinishedTally(t, f) == UnfinishedTally(s, f) && Tally(t, f) == Tally(s, f)
  {
    hide QueueTally, WorkersTally;
    ItemsTallyAppends(s.dropped, s.done[0].index, f);
  }

  lemma MovesNothing(c: Config, s: State, fails: bool, t: State, f: Weights)
    requires ValidConfig(c) && Placed(c, s.pc) && MainStep(c, s, fails) == Some(t)
    requires s.pc.AtSlot? || s.pc.Building? || s.pc.Final? || s.pc.Draining? || (s.pc.Submitting? && fails)
    ensures UnfinishedTally(t, f) == UnfinishedTally(s, f) && Tally(t, f) == Tally(s, f)
  {
    hide QueueTally, WorkersTally, DoneTally, ItemsTally;
  }

  lemma WorkerTallyStep(s: State, w: nat, fails: bool, t: State, f: Weights)
    requires w < |s.workers| && WorkerStep(s, w, fails) == Some(t)
    ensures Tally(t, f) == Tally(s, f)
    ensures UnfinishedTally(s, f) == UnfinishedTally(t, f)
            + if s.workers[w].Reporting? then f(s.workers[w].report.index) else 0
  {
    WorkersTallyUpdates(s.workers, w, t.workers[w], f);
    match s.workers[w] {
      case Idle => PoolTallyTakes(s.pool, f);
      case Reporting(r) => DoneTallyAppends(s.done, r, f);
      case _ =>
    }
  }

  // -- The invariant ----------------------------------------------------------------------------

  /** How many items the loop has launched, by where it stands. */
  predicate LaunchedSoFar(c: Config, s: State) {
    && s.launched <= c.n
    && (s.pc.AtSlot? || s.pc.WaitSlot? || s.pc.Building? || s.pc.Submitting? || (s.pc.Completing? && !s.pc.last)
        ==> s.launched == s.pc.slot)
    && (s.pc.Final? || s.pc.WaitFinal? || s.pc.Returned? || (s.pc.Completing? && s.pc.last) ==> s.launched == c.n)
  }

  /** Every launched item is in exactly one place. */
  ghost predicate Conserved(c: Config, s: State)
    requires ValidConfig(c)
  {
    s.launched <= c.n && forall x :: Tally(s, Only(x)) == ItemsTally(Plan(c)[..s.launched], Only(x))
  }

  /** The counter counts the launched items that will still report, and the one being submitted. */
  ghost predicate Counted(s: State) {
    s.outstanding == UnfinishedTally(s, One()) + if s.pc.Submitting? then 1 else 0
  }

  /** The window holds, with a place free before a launch. */
  predicate Bounded(c: Config, s: State) {
    InFlight(s) + (if s.pc.Building? || (s.pc.Completing? && !s.pc.last) then 1 else 0) <= Window(c)
  }

  predicate Settled(s: State) {
    && (!Unwinding(s.pc) ==> s.dropped == [])
    && (Finished(s.pc) ==> InFlight(s) == 0)
  }

  predicate Control(c: Config, s: State) {
    Placed(c, s.pc) && LaunchedSoFar(c, s) && Bounded(c, s) && Settled(s)
  }

  ghost predicate Inv(c: Config, s: State) {
    ValidConfig(c) && Control(c, s) && Conserved(c, s) && Counted(s)
  }

  predicate AllForeign(q: seq<Job>) {
    forall i :: 0 <= i < |q| ==> q[i].Foreign?
  }

  predicate NotOurs(w: Worker) {
    w.Idle? || (w.Running? && w.job.Foreign?)
  }

  /** No task of this dispatch is queued, running or about to report. */
  predicate NoneLeft(s: State) {
    && AllForeign(s.pool.tasks) && AllForeign(s.pool.background)
    && forall w :: 0 <= w < |s.workers| ==> NotOurs(s.workers[w])
  }

  /** The start: other callers' tasks may be queued and running already. */
  predicate Starts(c: Config, s: State) {
    && s.pc == AtSlot(0) && s.outstanding == 0 && s.done == [] && s.launched == 0
    && s.completed == [] && s.dropped == [] && NoneLeft(s)
  }

  lemma {:induction false} ForeignQueueIsEmpty(q: seq<Job>, f: Weights)
    requires AllForeign(q)
    ensures QueueTally(q, f) == 0
  {
    if |q| > 0 { ForeignQueueIsEmpty(q[1..], f); }
  }

  lemma {:induction false} ForeignWorkersAreEmpty(ws: seq<Worker>, f: Weights)
    requires forall w :: 0 <= w < |ws| ==> NotOurs(ws[w])
    ensures WorkersTally(ws, f) == 0
  {
    if |ws| > 0 { ForeignWorkersAreEmpty(ws[1..], f); }
  }

  lemma {:induction false} EmptyQueueIsForeign(q: seq<Job>)
    requires QueueTally(q, One()) == 0
    ensures AllForeign(q)
  {
    if |q| > 0 {
      EmptyQueueIsForeign(q[1..]);
      assert forall i :: 0 < i < |q| ==> q[i] == q[1..][i - 1];
    }
  }

  lemma {:induction false} EmptyWorkersAreForeign(ws: seq<Worker>)
    requires WorkersTally(ws, One()) == 0
    ensures forall w :: 0 <= w < |ws| ==> NotOurs(ws[w])
  {
    if |ws| > 0 {
      EmptyWorkersAreForeign(ws[1..]);
      assert forall w :: 0 < w < |ws| ==> ws[w] == ws[1..][w - 1];
    }
  }

  lemma NoneLeftTally(s: State, f: Weights)
    requires NoneLeft(s)
    ensures UnfinishedTally(s, f) == 0
  {
    ForeignQueueIsEmpty(s.pool.tasks, f);
    ForeignQueueIsEmpty(s.pool.background, f);
    ForeignWorkersAreEmpty(s.workers, f);
  }

  lemma ZeroLeft(s: State)
    requires UnfinishedTally(s, One()) == 0
    ensures NoneLeft(s)
  {
    EmptyQueueIsForeign(s.pool.tasks);
    EmptyQueueIsForeign(s.pool.background);
    EmptyWorkersAreForeign(s.workers);
  }

  lemma StartInv(c: Config, s: State)
    requires ValidConfig(c) && Starts(c, s)
    ensures Inv(c, s)
  {
    NoneLeftTally(s, One());
    assert Plan(c)[..0] == [];
    forall x ensures Tally(s, Only(x)) == 0 { NoneLeftTally(s, Only(x)); }
  }

  lemma LaunchKeepsControl(c: Config, s: State, fails: bool, t: State)
    requires ValidConfig(c) && Control(c, s) && s.outstanding >= 0 && MainStep(c, s, fails) == Some(t)
    requires s.pc.AtSlot? || s.pc.WaitSlot? || s.pc.Building? || s.pc.Submitting?
    ensures Control(c, t)
  {
    hide Enqueue;
  }

  lemma EndKeepsControl(c: Config, s: State, fails: bool, t: State)
    requires ValidConfig(c) && Control(c, s) && s.outstanding >= 0 && MainStep(c, s, fails) == Some(t)
    requires !s.pc.AtSlot? && !s.pc.WaitSlot? && !s.pc.Building? && !s.pc.Submitting?
    ensures Control(c, t)
  {}

  lemma MainKeepsControl(c: Config, s: State, fails: bool, t: State)
    requires ValidConfig(c) && Control(c, s) && s.outstanding >= 0 && MainStep(c, s, fails) == Some(t)
    ensures Control(c, t)
  {
    hide MainStep, LaunchedSoFar, Bounded, Settled;
    if s.pc.AtSlot? || s.pc.WaitSlot? || s.pc.Building? || s.pc.Submitting? { LaunchKeepsControl(c, s, fails, t); }
    else { EndKeepsControl(c, s, fails, t); }
  }

  lemma WorkerKeepsControl(c: Config, s: State, w: nat, fails: bool, t: State)
    requires Control(c, s) && w < |s.workers| && WorkerStep(s, w, fails) == Some(t)
    ensures Control(c, t)
  {}

  lemma MainKeepsCounts(c: Config, s: State, fails: bool, t: State)
    requires Inv(c, s) && MainStep(c, s, fails) == Some(t)
    ensures Counted(t)
  {
    hide Conserved, UnfinishedTally, Tally, Enqueue, Settled, Bounded, LaunchedSoFar;
    MainTally(c, s, fails, t, One());
  }

  lemma MainConserves(c: Config, s: State, fails: bool, t: State)
    requires Inv(c, s) && MainStep(c, s, fails) == Some(t) && t.launched <= c.n
    ensures Conserved(c, t)
  {
    hide ItemsTally, Tally, Only;
    forall x ensures Tally(t, Only(x)) == ItemsTally(Plan(c)[..t.launched], Only(x)) {
      MainTally(c, s, fails, t, Only(x));
      if s.pc.Submitting? && !fails {
        var k, plan := s.pc.slot, Plan(c);
        assert plan[..k + 1] == plan[..k] + [plan[k]];
        ItemsTallyAppends(plan[..k], plan[k], Only(x));
      } else {
        assert t.launched == s.launched;
      }
    }
  }

  lemma MainKeepsInv(c: Config, s: State, fails: bool, t: State)
    requires Inv(c, s) && MainStep(c, s, fails) == Some(t)
    ensures Inv(c, t)
  {
    MainKeepsControl(c, s, fails, t);
    MainKeepsCounts(c, s, fails, t);
    MainConserves(c, s, fails, t);
  }

  lemma WorkerKeepsCounts(c: Config, s: State, w: nat, fails: bool, t: State)
    requires Inv(c, s) && w < |s.workers| && WorkerStep(s, w, fails) == Some(t)
    ensures Counted(t)
  {
    hide Conserved, Control, Tally, UnfinishedTally;
    WorkerTallyStep(s, w, fails, t, One());
  }

  lemma WorkerConserves(c: Config, s: State, w: nat, fails: bool, t: State)
    requires Inv(c, s) && w < |s.workers| && WorkerStep(s, w, fails) == Some(t)
    ensures Conserved(c, t)
  {
    hide Counted, Control, Tally;
    forall x ensures Tally(t, Only(x)) == Tally(s, Only(x)) { WorkerTallyStep(s, w, fails, t, Only(x)); }
  }

  lemma WorkerKeepsInv(c: Config, s: State, w: nat, fails: bool, t: State)
    requires Inv(c, s) && w < |s.workers| && WorkerStep(s, w, fails) == Some(t)
    ensures Inv(c, t)
  {
    hide Counted, Conserved, Control;
    WorkerKeepsControl(c, s, w, fails, t);
    WorkerKeepsCounts(c, s, w, fails, t);
    WorkerConserves(c, s, w, fails, t);
  }

  lemma OutsideKeepsInv(c: Config, s: State, id: nat, priority: Priority)
    requires Inv(c, s)
    ensures Inv(c, s.(pool := Enqueue(s.pool, Foreign(id), priority)))
  {
    var t := s.(pool := Enqueue(s.pool, Foreign(id), priority));
    PoolTallyEnqueues(s.pool, Foreign(id), priority, One());
    forall x ensures Tally(t, Only(x)) == Tally(s, Only(x)) {
      PoolTallyEnqueues(s.pool, Foreign(id), priority, Only(x));
    }
  }

  lemma StepKeepsInv(c: Config, s: State, a: Action, t: State)
    requires Inv(c, s) && StepTo(c, s, a, t)
    ensures Inv(c, t)
  {
    match a {
      case Main(fails) => MainKeepsInv(c, s, fails, t);
      case Work(w, fails) => WorkerKeepsInv(c, s, w, fails, t);
      case Outside(id, priority) => OutsideKeepsInv(c, s, id, priority);
    }
  }

  // -- Whole runs -------------------------------------------------------------------------------

  ghost predicate Run(c: Config, states: seq<State>, actions: seq<Action>) {
    && ValidConfig(c)
    && IsRun((s: State, a: Action, t: State) => StepTo(c, s, a, t), states, actions)
    && Starts(c, states[0])
  }

  lemma RunsKeepInv(c: Config, states: seq<State>, actions: seq<Action>, i: nat)
    requires Run(c, states, actions) && i < |states|
    ensures Inv(c, states[i])
  {
    StartInv(c, states[0]);
    forall s: State, a: Action, t: State | Inv(c, s) && StepTo(c, s, a, t) ensures Inv(c, t) { StepKeepsInv(c, s, a, t); }
    Invariance((s: State, a: Action, t: State) => StepTo(c, s, a, t), (s: State) => Inv(c, s), (a: Action) => true,
               states, actions, i);
  }

  /** In every interleaving the counter stays non-negative and the window is never exceeded; a return
      has completed every item once, and neither a return nor a throw leaves a launched task behind. */
  lemma RunsAreSafe(c: Config, states: seq<State>, actions: seq<Action>, i: nat)
    requires Run(c, states, actions) && i < |states|
    ensures 0 <= states[i].outstanding
    ensures states[i].outstanding + |states[i].done| <= if c.maxInFlight > 1 then c.maxInFlight else 1
    ensures states[i].pc.Returned? ==> IsPermutation(states[i].completed, c.n) && states[i].launched == c.n
    ensures Finished(states[i].pc) ==> NoneLeft(states[i]) && states[i].done == []
    ensures Distinct(states[i].completed + states[i].dropped)
  {
    RunsKeepInv(c, states, actions, i);
    InvIsSafe(c, states[i]);
  }

  lemma PlanPermutes(c: Config)
    requires ValidConfig(c)
    ensures IsPermutation(Plan(c), c.n)
  {
    IndicesPermute(c.n);
  }

  lemma {:induction false} ItemsTallyCounts(items: seq<nat>, x: nat)
    ensures ItemsTally(items, Only(x)) == multiset(items)[x]
  {
    if items != [] {
      var n := |items| - 1;
      ItemsTallyCounts(items[..n], x);
      assert items == items[..n] + [items[n]];
    }
  }

  lemma {:induction false} ItemsTallyJoins(a: seq<nat>, b: seq<nat>, f: Weights)
    ensures ItemsTally(a + b, f) == ItemsTally(a, f) + ItemsTally(b, f)
  {
    if b == [] {
      assert a + b == a;
    } else {
      var n := |b| - 1;
      assert (a + b)[..|a + b| - 1] == a + b[..n];
      ItemsTallyJoins(a, b[..n], f);
    }
  }

  /** No item ends twice. */
  lemma SettledOnce(c: Config, s: State)
    requires Inv(c, s)
    ensures Distinct(s.completed + s.dropped)
  {
    var ended := s.completed + s.dropped;
    var prefix := Plan(c)[..s.launched];
    PlanPermutes(c);
    forall i, j | 0 <= i < j < |ended| ensures ended[i] != ended[j] {
      var x := ended[i];
      ItemsTallyJoins(s.completed, s.dropped, Only(x));
      ItemsTallyCounts(ended, x);
      ItemsTallyCounts(prefix, x);
      OccursOnce(prefix, x);
      if ended[j] == x { OccursTwice(ended, i, j); }
    }
  }

  lemma OccursTwice(items: seq<nat>, i: nat, j: nat)
    requires i < j < |items| && items[i] == items[j]
    ensures multiset(items)[items[i]] >= 2
  {
    var x := items[i];
    assert items == items[..j] + items[j..];
    assert items[..j][i] == x && x in items[..j] && items[j..][0] == x && x in items[j..];
    assert multiset(items[..j])[x] >= 1 && multiset(items[j..])[x] >= 1;
  }

  /** A return has completed exactly the items there are. */
  lemma ReturnCompletesAll(c: Config, s: State)
    requires Inv(c, s) && s.pc.Returned?
    ensures IsPermutation(s.completed, c.n)
  {
    SettledOnce(c, s);
    assert s.completed + s.dropped == s.completed && Plan(c)[..c.n] == Plan(c);
    PlanPermutes(c);
    PermutationCovers(Plan(c), c.n);
    NothingInFlight(s);
    ZeroLeft(s);
    forall x: nat ensures x in s.completed <==> x < c.n {
      NoneLeftTally(s, Only(x));
      ItemsTallyCounts(s.completed, x);
      ItemsTallyCounts(Plan(c), x);
    }
    DistinctSize(s.completed);
    assert Members(s.completed) == Range(c.n);
  }

  lemma NothingInFlight(s: State)
    requires Counted(s) && Finished(s.pc) && InFlight(s) == 0
    ensures UnfinishedTally(s, One()) == 0 && s.done == []
  {}

  lemma InvIsSafe(c: Config, s: State)
    requires Inv(c, s)
    ensures 0 <= s.outstanding && InFlight(s) <= Window(c)
    ensures s.pc.Returned? ==> IsPermutation(s.completed, c.n) && s.launched == c.n
    ensures Finished(s.pc) ==> NoneLeft(s) && s.done == []
    ensures Distinct(s.completed + s.dropped)
  {
    SettledOnce(c, s);
    if s.pc.Returned? { ReturnCompletesAll(c, s); }
    if Finished(s.pc) {
      NothingInFlight(s);
      ZeroLeft(s);
    }
  }

  // -- Nothing throws ---------------------------------------------------------------------------

  predicate Calm(a: Action) {
    a.Outside? || !a.fails
  }

  /** No result waiting anywhere is an error, and the dispatcher is not unwinding. */
  predicate Untroubled(s: State) {
    && !Unwinding(s.pc) && (s.pc.Completing? ==> !s.pc.report.failed)
    && (forall i :: 0 <= i < |s.done| ==> !s.done[i].failed)
    && (forall w :: 0 <= w < |s.workers| && s.workers[w].Reporting? ==> !s.workers[w].report.failed)
  }

  lemma CalmMain(c: Config, s: State, t: State)
    requires ValidConfig(c) && Placed(c, s.pc) && MainStep(c, s, false) == Some(t) && Untroubled(s)
    ensures Untroubled(t)
  {}

  lemma CalmWorker(s: State, w: nat, t: State)
    requires w < |s.workers| && WorkerStep(s, w, false) == Some(t) && Untroubled(s)
    ensures Untroubled(t)
  {
    assert s.workers[w].Reporting? ==> !s.workers[w].report.failed;
  }

  lemma CalmStep(c: Config, s: State, a: Action, t: State)
    requires StepTo(c, s, a, t) && Calm(a) && Untroubled(s)
    ensures Untroubled(t)
  {
    match a {
      case Main(_) => CalmMain(c, s, t);
      case Work(w, _) => CalmWorker(s, w, t);
      case Outside(_, _) =>
    }
  }

  /** When nothing throws, the dispatcher never unwinds: if it ends, it returns. */
  lemma CalmRunsReturn(c: Config, states: seq<State>, actions: seq<Action>, i: nat)
    requires Run(c, states, actions) && i < |states|
    requires forall j :: 0 <= j < |actions| ==> Calm(actions[j])
    ensures Untroubled(states[i])
    ensures Finished(states[i].pc) ==> IsPermutation(states[i].completed, c.n) && states[i].launched == c.n
  {
    forall s: State, a: Action, t: State | Untroubled(s) && Calm(a) && StepTo(c, s, a, t) ensures Untroubled(t) { CalmStep(c, s, a, t); }
    Invariance((s: State, a: Action, t: State) => StepTo(c, s, a, t), (s: State) => Untroubled(s), (a: Action) => Calm(a),
               states, actions, i);
    RunsAreSafe(c, states, actions, i);
  }

  // -- A failure is not lost --------------------------------------------------------------------

  /** A task has thrown and its exception is on its way, or being rethrown. */
  ghost predicate FailurePending(s: State) {
    || Unwinding(s.pc)
    || (s.pc.Completing? && s.pc.report.failed)
    || (exists i :: 0 <= i < |s.done| && s.done[i].failed)
    || (exists w :: 0 <= w < |s.workers| && s.workers[w].Reporting? && s.workers[w].report.failed)
  }

  lemma MainKeepsFailure(c: Config, s: State, fails: bool, t: State)
    requires Inv(c, s) && MainStep(c, s, fails) == Some(t) && FailurePending(s)
    ensures FailurePending(t)
  {
    assert t.workers == s.workers;
    if i :| 0 <= i < |s.done| && s.done[i].failed {
      if t.done == s.done { assert t.done[i].failed; }
      else if i > 0 { assert t.done[i - 1] == s.done[i]; }
    }
    if s.pc.Final? && t.pc.Returned? { assert s.done == []; }
  }

  lemma WorkerKeepsFailure(s: State, w: nat, fails: bool, t: State)
    requires w < |s.workers| && WorkerStep(s, w, fails) == Some(t) && FailurePending(s)
    ensures FailurePending(t)
  {
    if i :| 0 <= i < |s.done| && s.done[i].failed { assert t.done[i].failed; }
    if v :| 0 <= v < |s.workers| && s.workers[v].Reporting? && s.workers[v].report.failed {
      if v == w { assert t.done[|s.done|].failed; } else { assert t.workers[v] == s.workers[v]; }
    }
  }

  lemma StepKeepsFailure(c: Config, s: State, a: Action, t: State)
    requires Inv(c, s) && StepTo(c, s, a, t) && FailurePending(s)
    ensures FailurePending(t)
  {
    match a {
      case Main(fails) => MainKeepsFailure(c, s, fails, t);
      case Work(w, fails) => WorkerKeepsFailure(s, w, fails, t);
      case Outside(_, _) =>
    }
  }

  /** Once a task has thrown, the dispatch never returns normally. */
  lemma FailuresAreRaised(c: Config, states: seq<State>, actions: seq<Action>, i: nat, j: nat)
    requires Run(c, states, actions) && i <= j < |states| && FailurePending(states[i])
    ensures FailurePending(states[j]) && !states[j].pc.Returned?
  {
    RunsKeepInv(c, states, actions, i);
    forall s: State, a: Action, t: State | Inv(c, s) && FailurePending(s) && StepTo(c, s, a, t)
      ensures Inv(c, t) && FailurePending(t)
    {
      StepKeepsInv(c, s, a, t);
      StepKeepsFailure(c, s, a, t);
    }
    InvarianceFrom((s: State, a: Action, t: State) => StepTo(c, s, a, t), (s: State) => Inv(c, s) && FailurePending(s),
                   (a: Action) => true, states, actions, i, j);
    NoReturnPending(c, states[j]);
  }

  lemma NoReturnPending(c: Config, s: State)
    requires Inv(c, s)
    ensures s.pc.Returned? ==> !FailurePending(s)
  {
    InvIsSafe(c, s);
    assert NoneLeft(s) ==> forall w :: 0 <= w < |s.workers| ==> NotOurs(s.workers[w]);
  }

  // -- No deadlock ------------------------------------------------------------------------------

  predicate WorkerCanStep(s: State, w: nat) {
    w < |s.workers| && (s.workers[w].Idle? ==> !Nothing(s.pool))
  }

  /** A blocked dispatcher has an unfinished task of its own, which will report. */
  lemma BlockedHasUnfinished(c: Config, s: State)
    requires Inv(c, s) && Blocks(s.pc) && s.done == [] && InFlight(s) > 0
    ensures !NoneLeft(s)
  {
    if NoneLeft(s) { NoneLeftTally(s, One()); }
  }

  /** What blocks a dispatcher is work in flight, before a launch a whole window of it. */
  predicate WaitsForWork(c: Config, s: State) {
    && (Blocks(s.pc) ==> InFlight(s) > 0)
    && (s.pc.WaitSlot? ==> InFlight(s) >= Window(c))
  }

  /** Only the dispatcher itself changes how much is in flight. */
  lemma WorkersKeepInFlight(s: State, w: nat, fails: bool, t: State)
    requires w < |s.workers| && WorkerStep(s, w, fails) == Some(t)
    ensures InFlight(t) == InFlight(s) && t.pc == s.pc && |t.workers| == |s.workers|
  {}

  lemma MainWaitsForWork(c: Config, s: State, fails: bool, t: State)
    requires ValidConfig(c) && Placed(c, s.pc) && MainStep(c, s, fails) == Some(t)
    ensures WaitsForWork(c, t) && |t.workers| == |s.workers|
  {}

  lemma StepWaitsForWork(c: Config, s: State, a: Action, t: State)
    requires WaitsForWork(c, s) && StepTo(c, s, a, t)
    ensures WaitsForWork(c, t) && |t.workers| == |s.workers|
  {
    match a {
      case Main(fails) => MainWaitsForWork(c, s, fails, t);
      case Work(w, fails) => WorkersKeepInFlight(s, w, fails, t);
      case Outside(_, _) =>
    }
  }

  /** Some participant can always move: the dispatcher, or, while it is blocked, a worker. */
  lemma NeverStuck(c: Config, s: State)
    requires Inv(c, s) && WaitsForWork(c, s) && !Finished(s.pc) && |s.workers| > 0
    ensures MainStep(c, s, false).Some? || (!NoneLeft(s) && exists w :: WorkerCanStep(s, w))
  {
    if MainStep(c, s, false).None? {
      BlockedHasUnfinished(c, s);
      if w :| 0 <= w < |s.workers| && !NotOurs(s.workers[w]) {
        assert WorkerCanStep(s, w);
      } else {
        assert WorkerCanStep(s, 0);
      }
    }
  }

  lemma CanStepSteps(s: State, w: nat, fails: bool)
    requires WorkerCanStep(s, w)
    ensures WorkerStep(s, w, fails).Some?
  {}

  // -- Termination ------------------------------------------------------------------------------

  function WorkerWeight(w: Worker): nat {
    match w
    case Idle => 0
    case Running(_) => 6
    case Reporting(_) => 5
  }

  function WorkersWeight(ws: seq<Worker>): nat {
    if |ws| == 0 then 0 else WorkerWeight(ws[0]) + WorkersWeight(ws[1..])
  }

  function PcWeight(c: Config, pc: Pc): nat
    requires Placed(c, pc)
  {
    match pc
    case AtSlot(k) => 20 * (c.n - k) + 10
    case WaitSlot(k) => 20 * (c.n - k) + 9
    case Building(k) => 20 * (c.n - k) + 8
    case Submitting(k) => 20 * (c.n - k) + 7
    case Final => 3
    case WaitFinal => 2
    case Completing(_, k, last) => if last then 5 else 20 * (c.n - k) + 12
    case Draining => 1
    case DrainWait => 0
    case _ => 0
  }

  /** The work left, were no other caller to submit any more. */
  function Measure(c: Config, s: State): nat
    requires Placed(c, s.pc)
  {
    PcWeight(c, s.pc) + 4 * |s.done| + 7 * (|s.pool.tasks| + |s.pool.background|) + WorkersWeight(s.workers)
  }

  lemma {:induction false} WorkersWeightUpdates(ws: seq<Worker>, w: nat, to: Worker)
    requires w < |ws|
    ensures WorkersWeight(ws[w := to]) + WorkerWeight(ws[w]) == WorkersWeight(ws) + WorkerWeight(to)
  {
    if w == 0 {
      assert ws[0 := to][1..] == ws[1..];
    } else {
      assert ws[w := to][1..] == ws[1..][w - 1 := to];
      WorkersWeightUpdates(ws[1..], w - 1, to);
    }
  }

  lemma MainProgresses(c: Config, s: State, fails: bool)
    requires ValidConfig(c) && Placed(c, s.pc) && MainStep(c, s, fails).Some?
    ensures Placed(c, MainStep(c, s, fails).value.pc)
    ensures Measure(c, MainStep(c, s, fails).value) < Measure(c, s)
  {
    hide Measure;
    if s.pc.AtSlot? || s.pc.WaitSlot? || s.pc.Building? || s.pc.Submitting? { LaunchProgresses(c, s, fails); }
    else { EndProgresses(c, s, fails); }
  }

  lemma LaunchProgresses(c: Config, s: State, fails: bool)
    requires ValidConfig(c) && Placed(c, s.pc) && MainStep(c, s, fails).Some?
    requires s.pc.AtSlot? || s.pc.WaitSlot? || s.pc.Building? || s.pc.Submitting?
    ensures Placed(c, MainStep(c, s, fails).value.pc)
    ensures Measure(c, MainStep(c, s, fails).value) < Measure(c, s)
  {
    hide WorkersWeight;
  }

  lemma EndProgresses(c: Config, s: State, fails: bool)
    requires ValidConfig(c) && Placed(c, s.pc) && MainStep(c, s, fails).Some?
    requires !s.pc.AtSlot? && !s.pc.WaitSlot? && !s.pc.Building? && !s.pc.Submitting?
    ensures Placed(c, MainStep(c, s, fails).value.pc)
    ensures Measure(c, MainStep(c, s, fails).value) < Measure(c, s)
  {
    hide WorkersWeight;
  }

  lemma WorkerProgresses(c: Config, s: State, w: nat, fails: bool)
    requires Placed(c, s.pc) && w < |s.workers| && WorkerStep(s, w, fails).Some?
    ensures Measure(c, WorkerStep(s, w, fails).value) < Measure(c, s)
  {
    WorkersWeightUpdates(s.workers, w, WorkerStep(s, w, fails).value.workers[w]);
  }

  /** Between submissions by other callers every step brings the end nearer. */
  lemma StepProgresses(c: Config, s: State, a: Action, t: State)
    requires Placed(c, t.pc) && StepTo(c, s, a, t) && !a.Outside?
    ensures Measure(c, t) < Measure(c, s)
  {
    if a.Main? { MainProgresses(c, s, a.fails); } else { WorkerProgresses(c, s, a.worker, a.fails); }
  }

  function MeasureOr(c: Config, s: State): nat {
    if Placed(c, s.pc) then Measure(c, s) else 0
  }

  /** A submission by another caller buys seven steps: its task taken, run and left. */
  function Cost(a: Action): int {
    if a.Outside? then -7 else 1
  }

  function OutsideSteps(actions: seq<Action>, i: nat): nat
    requires i <= |actions|
  {
    if i == 0 then 0 else OutsideSteps(actions, i - 1) + if actions[i - 1].Outside? then 1 else 0
  }

  lemma {:induction false} SpentOn(actions: seq<Action>, i: nat)
    requires i <= |actions|
    ensures Spent((a: Action) => Cost(a), actions, i) == i - 8 * OutsideSteps(actions, i)
  {
    if i > 0 { SpentOn(actions, i - 1); }
  }

  lemma StepPays(c: Config, s: State, a: Action, t: State)
    requires Inv(c, s) && StepTo(c, s, a, t)
    ensures Inv(c, t) && MeasureOr(c, t) + Cost(a) <= MeasureOr(c, s)
  {
    StepKeepsInv(c, s, a, t);
    if !a.Outside? { StepProgresses(c, s, a, t); }
  }

  /** In every run the steps of dispatcher and workers number at most the measure of the first state,
      and seven for each task another caller submits. */
  lemma RunsAreShort(c: Config, states: seq<State>, actions: seq<Action>, i: nat)
    requires Run(c, states, actions) && i <= |actions|
    ensures i - OutsideSteps(actions, i) <= MeasureOr(c, states[0]) + 7 * OutsideSteps(actions, i)
  {
    StartInv(c, states[0]);
    forall s: State, a: Action, t: State | Inv(c, s) && StepTo(c, s, a, t)
      ensures Inv(c, t) && MeasureOr(c, t) + Cost(a) <= MeasureOr(c, s)
    {
      StepPays(c, s, a, t);
    }
    Budget((s: State, a: Action, t: State) => StepTo(c, s, a, t), (s: State) => Inv(c, s), (a: Action) => Cost(a),
           (s: State) => MeasureOr(c, s), states, actions, i);
    SpentOn(actions, i);
  }

  /** No move is left to the dispatcher or to a worker. */
  ghost predicate Stuck(c: Config, s: State) {
    forall a: Action, t: State :: !a.Outside? ==> !StepTo(c, s, a, t)
  }

  /** With one worker or more, a run that cannot go on has brought the dispatcher to its end. */
  lemma MaximalRunsEnd(c: Config, states: seq<State>, actions: seq<Action>)
    requires Run(c, states, actions) && |states[0].workers| > 0 && Stuck(c, states[|actions|])
    ensures Finished(states[|actions|].pc)
  {
    var last := states[|actions|];
    RunsKeepInv(c, states, actions, |actions|);
    RunsWaitForWork(c, states, actions, |actions|);
    if !Finished(last.pc) {
      var a := SomeMove(c, last);
      assert StepTo(c, last, a, Step(c, last, a).value);
    }
  }

  lemma SomeMove(c: Config, s: State) returns (a: Action)
    requires Inv(c, s) && WaitsForWork(c, s) && !Finished(s.pc) && |s.workers| > 0
    ensures !a.Outside? && Step(c, s, a).Some?
  {
    NeverStuck(c, s);
    if MainStep(c, s, false).Some? {
      a := Main(false);
    } else {
      var w :| WorkerCanStep(s, w);
      CanStepSteps(s, w, false);
      a := Work(w, false);
    }
  }

  lemma RunsWaitForWork(c: Config, states: seq<State>, actions: seq<Action>, i: nat)
    requires Run(c, states, actions) && i < |states|
    ensures WaitsForWork(c, states[i]) && |states[i].workers| == |states[0].workers|
  {
    var crew := |states[0].workers|;
    forall s: State, a: Action, t: State | WaitsForWork(c, s) && |s.workers| == crew && StepTo(c, s, a, t)
      ensures WaitsForWork(c, t) && |t.workers| == crew
    {
      StepWaitsForWork(c, s, a, t);
    }
    Invariance((s: State, a: Action, t: State) => StepTo(c, s, a, t),
               (s: State) => WaitsForWork(c, s) && |s.workers| == crew, (a: Action) => true, states, actions, i);
  }

  // -- Tasks start in launch order --------------------------------------------------------------

  function MineOf(q: seq<Job>): seq<nat> {
    if |q| == 0 then [] else (if q[0].Mine? then [q[0].index] else []) + MineOf(q[1..])
  }

  lemma {:induction false} MineOfAppends(q: seq<Job>, job: Job)
    ensures MineOf(q + [job]) == MineOf(q) + if job.Mine? then [job.index] else []
  {
    if |q| == 0 {
      assert q + [job] == [job] && [job][1..] == [];
    } else {
      assert (q + [job])[1..] == q[1..] + [job];
      MineOfAppends(q[1..], job);
      var head, tail := if q[0].Mine? then [q[0].index] else [], if job.Mine? then [job.index] else [];
      assert MineOf(q + [job]) == head + MineOf(q[1..] + [job]);
      assert head + (MineOf(q[1..]) + tail) == (head + MineOf(q[1..])) + tail;
    }
  }

  function Ours(c: Config, q: Queues<Job>): seq<Job> {
    if c.priority.Foreground? then q.tasks else q.background
  }

  function Theirs(c: Config, q: Queues<Job>): seq<Job> {
    if c.priority.Foreground? then q.background else q.tasks
  }

  /** The launched items still queued are the last ones launched, in launch order. */
  predicate Fifo(c: Config, s: State)
    requires ValidConfig(c)
  {
    && s.launched <= c.n
    && MineOf(Theirs(c, s.pool)) == []
    && var queued := MineOf(Ours(c, s.pool));
       |queued| <= s.launched && queued == Plan(c)[s.launched - |queued|..s.launched]
  }

  lemma MainKeepsFifo(c: Config, s: State, fails: bool, t: State)
    requires Inv(c, s) && Fifo(c, s) && MainStep(c, s, fails) == Some(t)
    ensures Fifo(c, t)
  {
    if s.pc.Submitting? && !fails { SubmitKeepsFifo(c, s); } else { assert t.pool == s.pool && t.launched == s.launched; }
  }

  lemma WorkerKeepsFifo(c: Config, s: State, w: nat, fails: bool, t: State)
    requires ValidConfig(c) && Fifo(c, s) && w < |s.workers| && WorkerStep(s, w, fails) == Some(t)
    ensures Fifo(c, t)
  {
    if s.workers[w].Idle? { TakeKeepsFifo(c, s, w); }
  }

  /** Workers take the items of one dispatch strictly in the order they were launched. */
  lemma StepKeepsFifo(c: Config, s: State, a: Action, t: State)
    requires Inv(c, s) && Fifo(c, s) && StepTo(c, s, a, t)
    ensures Fifo(c, t)
  {
    hide Fifo, Inv;
    match a {
      case Main(fails) => MainKeepsFifo(c, s, fails, t);
      case Work(w, fails) => WorkerKeepsFifo(c, s, w, fails, t);
      case Outside(id, priority) => OutsideKeepsFifo(c, s, id, priority, t);
    }
  }

  lemma OutsideKeepsFifo(c: Config, s: State, id: nat, priority: Priority, t: State)
    requires Inv(c, s) && Fifo(c, s) && StepTo(c, s, Outside(id, priority), t)
    ensures Fifo(c, t)
  {
    hide Inv;
    MineOfAppends(s.pool.tasks, Foreign(id));
    MineOfAppends(s.pool.background, Foreign(id));
  }

  lemma SubmitKeepsFifo(c: Config, s: State)
    requires ValidConfig(c) && Placed(c, s.pc) && LaunchedSoFar(c, s) && Fifo(c, s) && s.pc.Submitting?
    ensures Fifo(c, MainStep(c, s, false).value)
  {
    hide Plan, MineOf;
    var k := s.pc.slot;
    var x := Plan(c)[k];
    OursGrows(c, s.pool, Mine(x));
    MineOfAppends(Ours(c, s.pool), Mine(x));
    SuffixGrows(Plan(c), MineOf(Ours(c, s.pool)), k);
  }

  lemma OursGrows(c: Config, pool: Queues<Job>, job: Job)
    ensures Ours(c, Enqueue(pool, job, c.priority)) == Ours(c, pool) + [job]
    ensures Theirs(c, Enqueue(pool, job, c.priority)) == Theirs(c, pool)
  {}

  lemma SuffixGrows(plan: seq<nat>, queued: seq<nat>, k: nat)
    requires |queued| <= k < |plan| && queued == plan[k - |queued|..k]
    ensures queued + [plan[k]] == plan[k - |queued|..k + 1]
  {}

  lemma TakeKeepsFifo(c: Config, s: State, w: nat)
    requires ValidConfig(c) && Fifo(c, s) && w < |s.workers| && s.workers[w].Idle? && !Nothing(s.pool)
    ensures Fifo(c, WorkerStep(s, w, false).value)
    ensures Front(s.pool).Mine? ==>
              Front(s.pool).index == Plan(c)[s.launched - |MineOf(Ours(c, s.pool))|]
  {
    hide Plan;
    var queued := MineOf(Ours(c, s.pool));
    var plan := Plan(c);
    var from := s.launched - |queued|;
    FrontTaken(c, s.pool);
    if Front(s.pool).Mine? {
      assert queued[0] == plan[from];
      assert queued[1..] == plan[from + 1..s.launched];
    }
  }

  /** Taking the front leaves the items behind it, and the other queue without items. */
  lemma FrontTaken(c: Config, pool: Queues<Job>)
    requires !Nothing(pool) && MineOf(Theirs(c, pool)) == []
    ensures MineOf(Theirs(c, Rest(pool))) == []
    ensures var queued := MineOf(Ours(c, pool));
      if Front(pool).Mine? then queued == [Front(pool).index] + MineOf(Ours(c, Rest(pool)))
      else queued == MineOf(Ours(c, Rest(pool)))
  {}

  /** In every run. */
  lemma RunsAreFifo(c: Config, states: seq<State>, actions: seq<Action>, i: nat)
    requires Run(c, states, actions) && i < |states|
    ensures Fifo(c, states[i])
  {
    StartInv(c, states[0]);
    NothingMine(states[0].pool.tasks);
    NothingMine(states[0].pool.background);
    forall s: State, a: Action, t: State | Inv(c, s) && Fifo(c, s) && StepTo(c, s, a, t) ensures Inv(c, t) && Fifo(c, t) {
      StepKeepsInv(c, s, a, t);
      StepKeepsFifo(c, s, a, t);
    }
    Invariance((s: State, a: Action, t: State) => StepTo(c, s, a, t), (s: State) => Inv(c, s) && Fifo(c, s),
               (a: Action) => true, states, actions, i);
  }

  lemma {:induction false} NothingMine(q: seq<Job>)
    requires AllForeign(q)
    ensures MineOf(q) == []
  {
    if |q| > 0 { NothingMine(q[1..]); }
  }

  // -- The window never idles a worker ----------------------------------------------------------

  /** While the dispatcher waits for a free slot with no result to collect, a window of at least one
      place a worker means that no worker is idle with nothing queued. */
  lemma FullWindowFeedsWorkers(c: Config, s: State, w: nat)
    requires Inv(c, s) && WaitsForWork(c, s) && s.pc.WaitSlot? && s.done == []
    requires Window(c) >= |s.workers| && w < |s.workers|
    ensures s.workers[w].Idle? ==> !Nothing(s.pool)
  {
    if s.workers[w].Idle? && Nothing(s.pool) {
      FewerThanWorkers(s.workers, w);
    }
  }

  lemma {:induction false} FewerThanWorkers(ws: seq<Worker>, w: nat)
    requires w < |ws| && ws[w].Idle?
    ensures WorkersTally(ws, One()) < |ws|
  {
    AtMostWorkers(ws[1..]);
    if w > 0 { FewerThanWorkers(ws[1..], w - 1); }
  }

  lemma {:induction false} AtMostWorkers(ws: seq<Worker>)
    ensures WorkersTally(ws, One()) <= |ws|
  {
    if |ws| > 0 { AtMostWorkers(ws[1..]); }
  }

  // -- One result a launch ----------------------------------------------------------------------

  /** How many results are collected before slot `k` is launched. */
  function CollectedBefore(window: nat, k: int): nat {
    if k < window then 0 else k + 1 - window
  }

  /** The launch loop collects a result for each launch past the window, and no more. */
  predicate CollectsInStep(c: Config, s: State) {
    match s.pc
    case AtSlot(k) => |s.completed| == CollectedBefore(Window(c), k - 1) && InFlight(s) == k - |s.completed|
    case WaitSlot(k) => |s.completed| == k - Window(c) && InFlight(s) == Window(c)
    case Completing(_, k, last) => !last ==> |s.completed| == k - Window(c) && InFlight(s) == Window(c) - 1
    case Building(k) => |s.completed| == CollectedBefore(Window(c), k) && InFlight(s) == k - |s.completed|
    case Submitting(k) => |s.completed| == CollectedBefore(Window(c), k) && InFlight(s) == k + 1 - |s.completed|
    case _ => true
  }

  lemma MainCollectsInStep(c: Config, s: State, fails: bool, t: State)
    requires ValidConfig(c) && Placed(c, s.pc) && CollectsInStep(c, s) && MainStep(c, s, fails) == Some(t)
    ensures CollectsInStep(c, t)
  {}

  lemma WorkerCollectsInStep(c: Config, s: State, w: nat, fails: bool, t: State)
    requires CollectsInStep(c, s) && w < |s.workers| && WorkerStep(s, w, fails) == Some(t)
    ensures CollectsInStep(c, t)
  {
    WorkersKeepInFlight(s, w, fails, t);
    assert t.completed == s.completed;
  }

  lemma StepCollectsInStep(c: Config, s: State, a: Action, t: State)
    requires CollectsInStep(c, s) && StepTo(c, s, a, t)
    ensures CollectsInStep(c, t)
  {
    match a {
      case Main(fails) => MainCollectsInStep(c, s, fails, t);
      case Work(w, fails) => WorkerCollectsInStep(c, s, w, fails, t);
      case Outside(_, _) =>
    }
  }

  /** In every run an item is launched when exactly enough results are in for its place. */
  lemma RunsCollectInStep(c: Config, states: seq<State>, actions: seq<Action>, i: nat)
    requires Run(c, states, actions) && i < |states|
    ensures CollectsInStep(c, states[i])
  {
    forall s: State, a: Action, t: State | CollectsInStep(c, s) && StepTo(c, s, a, t) ensures CollectsInStep(c, t) {
      StepCollectsInStep(c, s, a, t);
    }
    Invariance((s: State, a: Action, t: State) => StepTo(c, s, a, t), (s: State) => CollectsInStep(c, s), (a: Action) => true,
               states, actions, i);
  }

  // -- Foreground tasks go first ----------------------------------------------------------------

  /** An idle worker takes a task. */
  predicate IsTake(s: State, a: Action) {
    a.Work? && a.worker < |s.workers| && s.workers[a.worker].Idle?
  }

  /** How many tasks are taken between two states of a run. */
  function Takes(states: seq<State>, actions: seq<Action>, i: nat, j: nat): nat
    requires i <= j <= |actions| && |states| == |actions| + 1
  {
    if i == j then 0 else Takes(states, actions, i, j - 1) + if IsTake(states[j - 1], actions[j - 1]) then 1 else 0
  }

  lemma StepKeepsForeground(c: Config, s: State, a: Action, t: State)
    requires StepTo(c, s, a, t) && |s.pool.tasks| > 0
    ensures IsTake(s, a) ==> t.pool.tasks == s.pool.tasks[1..] && t.workers[a.worker] == Running(s.pool.tasks[0])
    ensures !IsTake(s, a) ==> s.pool.tasks <= t.pool.tasks
    ensures s.pool.background <= t.pool.background
  {}

  predicate TakenBy(s: State, w: nat, job: Job) {
    w < |s.workers| && s.workers[w] == Running(job)
  }

  /** While a foreground task waits, no worker takes a background one: what is taken is what is queued
      ahead of it, so that but for those only tasks already running can hold it up, one a worker. */
  lemma {:induction false} ForegroundGoesFirst(c: Config, states: seq<State>, actions: seq<Action>, i: nat, j: nat, q: nat)
    requires Run(c, states, actions) && i <= j <= |actions| && q < |states[i].pool.tasks|
    requires Takes(states, actions, i, j) <= q
    ensures var k := q - Takes(states, actions, i, j);
      && k < |states[j].pool.tasks| && states[j].pool.tasks[k] == states[i].pool.tasks[q]
      && states[i].pool.background <= states[j].pool.background
      && (j < |actions| && IsTake(states[j], actions[j]) && k == 0 ==>
            TakenBy(states[j + 1], actions[j].worker, states[i].pool.tasks[q]))
  {
    if i < j {
      ForegroundGoesFirst(c, states, actions, i, j - 1, q);
      assert Follows((s: State, a: Action, t: State) => StepTo(c, s, a, t), states, actions, j - 1);
      StepKeepsForeground(c, states[j - 1], actions[j - 1], states[j]);
    }
    if j < |actions| {
      assert Follows((s: State, a: Action, t: State) => StepTo(c, s, a, t), states, actions, j);
      StepKeepsForeground(c, states[j], actions[j], states[j + 1]);
    }
  }
}
