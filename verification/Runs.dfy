/** Runs of any transition system, and what every state of a run inherits from its steps. */
module Runs {

  /** `states` follows `actions` step by step. */
  ghost predicate IsRun<S(!new), A(!new)>(step: (S, A, S) -> bool, states: seq<S>, actions: seq<A>) {
    |states| == |actions| + 1 && forall i :: 0 <= i < |actions| ==> Follows(step, states, actions, i)
  }

  ghost predicate Follows<S(!new), A(!new)>(step: (S, A, S) -> bool, states: seq<S>, actions: seq<A>, i: nat)
    requires i < |actions| && |states| == |actions| + 1
  {
    step(states[i], actions[i], states[i + 1])
  }

  /** What every allowed step keeps, every state has from the first that has it. */
  lemma {:induction false} InvarianceFrom<S(!new), A(!new)>(step: (S, A, S) -> bool, inv: S -> bool, allowed: A -> bool,
                                                            states: seq<S>, actions: seq<A>, from: nat, i: nat)
    requires IsRun(step, states, actions) && from <= i < |states| && inv(states[from])
    requires forall j :: 0 <= j < |actions| ==> allowed(actions[j])
    requires forall s, a, t :: inv(s) && allowed(a) && step(s, a, t) ==> inv(t)
    ensures inv(states[i])
  {
    if i > from {
      InvarianceFrom(step, inv, allowed, states, actions, from, i - 1);
      assert Follows(step, states, actions, i - 1);
    }
  }

  lemma Invariance<S(!new), A(!new)>(step: (S, A, S) -> bool, inv: S -> bool, allowed: A -> bool,
                                     states: seq<S>, actions: seq<A>, i: nat)
    requires IsRun(step, states, actions) && i < |states| && inv(states[0])
    requires forall j :: 0 <= j < |actions| ==> allowed(actions[j])
    requires forall s, a, t :: inv(s) && allowed(a) && step(s, a, t) ==> inv(t)
    ensures inv(states[i])
  {
    InvarianceFrom(step, inv, allowed, states, actions, 0, i);
  }

  /** What the first `i` actions cost together; a negative cost is a gain. */
  ghost function Spent<A(!new)>(cost: A -> int, actions: seq<A>, i: nat): int
    requires i <= |actions|
  {
    if i == 0 then 0 else Spent(cost, actions, i - 1) + cost(actions[i - 1])
  }

  /** A run each of whose steps is paid for out of a measure spends no more than it began with. */
  lemma {:induction false} Budget<S(!new), A(!new)>(step: (S, A, S) -> bool, inv: S -> bool, cost: A -> int,
                                                    measure: S -> nat, states: seq<S>, actions: seq<A>, i: nat)
    requires IsRun(step, states, actions) && i < |states| && inv(states[0])
    requires forall s, a, t :: inv(s) && step(s, a, t) ==> inv(t) && measure(t) + cost(a) <= measure(s)
    ensures inv(states[i]) && measure(states[i]) + Spent(cost, actions, i) <= measure(states[0])
  {
    if i > 0 {
      Budget(step, inv, cost, measure, states, actions, i - 1);
      assert Follows(step, states, actions, i - 1);
    }
  }
}
