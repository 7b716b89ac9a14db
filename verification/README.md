# A verified model of PEREDUR's self-contained algorithms

PEREDUR repairs reactive specifications written as FRETISH requirements. Six parts of it decide
something without calling a solver, or claim that what they cache, launch, filter or queue may stand in
for something slower. This project models those parts in Dafny and proves what they are for.

1. **FRETISH lowering and its orders.** `Ltl` gives linear temporal logic over infinite traces.
   `Fretish` is the lowering, branch for branch, on formulas instead of strings: an obligation that is
   printed without outer parentheses (`true -> body`, `G(..) & (..)`) is kept as a `Printed` value, so
   that what `| mode` attaches to follows operator precedence. `FretishSemantics` proves what every
   lowered formula means. `TimingOrder`, `TimingExact`, `ScopeOrder` and `ConditionOrder` prove the three
   implication tables against that meaning, in both directions and for every tick count;
   `ScopeOrderAtTrue` and `TimingOrderAtTrue` settle the scope and the timing order at the literal `true`;
   `BoundaryDuality` covers boundaries, zero ticks and negated bodies. `RuleSearches` is what the tables
   are for: the search that shows one requirement to imply another, a field at a time; `FieldRules` settles
   when its rules for responses, conditions and stops are exact.
2. **Exact domain constraints.** `Comparisons` (sampling the line), `Clauses` (propagation over short
   clauses), `CnfSynthesis` (clauses with exactly given models), `Thresholds` (clauses for one variable),
   `VariableGroups` (union-find, and joint realisability by groups), `ForallExists` (groups that compare
   inputs with outputs) and `DomainRequirements` (the clauses of all groups together).
3. **Bounded dispatch.** `BoundedAsync` and `ThreadPools` are the completion queue, the launch orders and
   the two-priority pool; `Dispatch` is the protocol as a transition system over `Runs`, and
   `DispatchHistories` what its runs amount to, in which order items start and what becomes of an
   exception; `Schedules` puts times to it, a window and launches that wait for results included, and
   `Makespan` is the arithmetic of list scheduling it rests on.
4. **Cache keys.** `Realizability` is the existence of a causal strategy, and its invariance under
   renaming; `CanonicalForms` and `NormalForms` are the normal form keys are taken of and `ArenaOrder` the
   order it sorts by; `FormulaKey`, `RenamedKeys` and `RealizabilityKey` are the keys and their exact
   meaning, `KeyNumbering` the names they hand out and `StrayNames` the exact condition for one key to
   mean one verdict.
5. **Antichains and quotients.** `Quotients` and `Maximality`.
6. **The campaign queue.** `SeedRanges` and `HostSplits`, with `SeedGrammar` the grammar of seed texts;
   `CampaignQueue`, a state machine whose steps are the queue's atomic file writes, with a kill possible
   before any of them; and `CampaignOutcomes`, what each end of a tick leaves behind.

Solvers, the parser and the printer are parameters with stated contracts. Time and cost are reals. A
lock-protected section is one step.

Eight statements of the code or its documentation need a condition; each is given exactly, with an input
on which it fails without it:

- Over the lists of one run, one realizability key means one verdict if and only if no undeclared atom is
  spelt like a name the lists can be given, `fi` with a number below that of the inputs or `fo` with one
  below that of the outputs (`StrayNames.KeySafeExactly`). For each such spelling and either side the
  undeclared atoms may be on, `StrayNames.NewNameBreaksKey` gives two formulas in normal form that share
  a key and differ.
- The makespan bounds of cost order and of any order hold of every dispatch if and only if the window has
  a place for every worker (`Schedules.BoundsNeedWindow`). Through a narrower one, `window + 1` items of
  equal length take twice the best time. Through one wide enough no order exceeds `2 - 1/m`, which
  contradicts the unbounded ratio that include/bounded_async.hpp:103-105 ascribes to an adversarial order.
- The scope table is made for all conditions together. At the literal `true` four more families of pairs
  hold, and no others (`ScopeOrderAtTrue.ScopeOrderExactAtTrue`): a trigger `not in` then implies `after`
  at `immediately` and `eventually`, say.
- So is the timing table. At `true` a continual requirement implies more, and exactly what
  `TimingOrderAtTrue.TimingOrderExactAtTrue` lists: `immediately` is then `always`, say.
- The rules for single fields accept every step that holds whatever the other fields are, with two
  exceptions. A response under `after` may change freely where it settles the requirement, being valid or
  unsatisfiable as `FieldRules.ResponseStepExact` says; a trigger's condition may become one that never
  holds, or a stronger one where the body, once due, lasts (`FieldRules.ConditionStepExact`).
- Dropping the widest clauses first leaves a clause of two literals across a value if and only if no
  ordering has its threshold there and on either side some comparison takes both truth values
  (`Thresholds.DomainClauses`); so the chain is one of neighbouring thresholds exactly when no threshold is
  such a value. With `x < 1`, `x > 3` and `x == 2` the threshold 2 is (`Thresholds.EqualityIsBridged`).
- Two formulas that differ in their atoms' names need not share the renamed key, since the operands are
  sorted with their names: `(a U b) & (b U c)` and `(c U b) & (b U a)` do not
  (`RenamedKeys.SwappedNamesSplitKey`). A formula and its renaming share it exactly when some renaming that
  keeps the comparisons sorted by gives what the renaming gives, up to the spelling
  (`RenamedKeys.KeyKeptExactly`).
- A queued entry stays below its attempt cap exactly when it was enqueued with a cap of at least 1
  (`CampaignQueue.JoinsBelowCap`); `--max-attempts` is not checked.

The negated body is the plain one's complement for every timing but `until` and `before`; there the
two overlap exactly on the traces `BoundaryDuality.NegatedIsComplement` names.

## Model

| member | source | states |
|---|---|---|
| Fretish.ExpandWithin | src/requirement.cpp:64-74 | the loop builds the X-chain of `n` nestings that `FretishSemantics.WithinChainMeans` reads |
| Fretish.ExpandFor | src/requirement.cpp:77-87 | the same for the conjunctive chain |
| Fretish.ExpandAfter | src/requirement.cpp:94-106 | one nesting more than the tick count, the response innermost |
| FretishSemantics.WithinChainMeans | src/requirement.cpp:63-74 | on every trace and at every position the chain is F[0,n] of the response, for every `n` |
| FretishSemantics.ForChainMeans | src/requirement.cpp:76-87 | the chain is G[0,n] of the response |
| FretishSemantics.AfterChainMeans | src/requirement.cpp:89-106 | the chain holds when the response arrives at the end of the count and nowhere before |
| FretishSemantics.TimingBodyMeans | src/requirement.cpp:183-225 | every timing body with every boundary means its bounded temporal operator, discharged at the boundary |
| FretishSemantics.NegatedTimingBodyMeans | src/requirement.cpp:230-274 | the negated body means the dual operator over the negated response, and the hand-written dual for `after` |
| FretishSemantics.LoweringMeans | src/requirement.cpp:961-1016 | the whole lowered requirement means its scope placed around its conditioned obligation, at every position of every trace |
| TimingOrder.TimingOrderSound | src/requirement.cpp:482-525 | an accepted timing edge is an implication between whole lowered requirements at every position, for every scope, mode, condition type, condition, response and stop |
| TimingExact.TimingOrderExact | src/requirement.cpp:427-525 | the table accepts a pair if and only if the implication holds on every trace for every propositional field, at every tick count, scope and condition type, any stops being one shared formula |
| ScopeOrder.ScopeOrderSound | src/requirement.cpp:543-585 | every accepted pair of scopes is an implication between whole lowered requirements, the condition `true` included |
| ScopeOrder.ScopeOrderExact | src/requirement.cpp:543-585 | for every timing at every tick count, both condition types and one mode or two, the table accepts exactly the implications that hold over all propositional conditions, responses and stops and all traces |
| ScopeOrderAtTrue.ScopeOrderExactAtTrue | src/requirement.cpp:986-1016 | at the literal `true`, where a trigger loses its rising edge, an implication holds exactly when the table accepts it or it is in one of four named families |
| TimingOrderAtTrue.TimingOrderExactAtTrue | src/requirement.cpp:427-525 | at the literal `true`, for every pair of timings at every tick count, every scope and both condition types, an implication holds exactly when the table accepts it or it is continual and in a named family: `immediately` or `for` into what `always` gives, `after` into a longer one, `after` where no boundary comes, and their only-scope duals |
| ConditionOrder.ConditionStepSound | src/filter/implication_check.cpp:150-160 | a continual requirement implies its trigger form everywhere, and the trigger form the continual one at `always` under plain scopes and `eventually` under only scopes |
| ConditionOrder.ConditionOrderExact | src/filter/implication_check.cpp:150-160 | for every timing at every tick count and every scope, the step is accepted exactly when it holds over all conditions, and exactly when it holds at the literal `true` |
| ConditionOrder.TriggerGivesContinual | src/requirement.cpp:986-1016 | the run-of-condition argument: inside a bounded interval every point where the condition holds lies on a run that a rising edge started |
| RuleSearches.StepIsImplied | src/filter/implication_check.cpp:93-148 | each step the rules allow, by the polarity of a field or by a table, implies the requirement it moves to, whatever the other fields are by then |
| RuleSearches.RuleSearch.Reach | src/filter/implication_check.cpp:75-91 | the depth-first search with its visited states and remembered answers finds a chain of rules exactly when there is one |
| RuleSearches.ReachIsChain | src/filter/implication_check.cpp:75-148 | a chain of rules over sets of moved fields is exactly a chain of whole requirements, each step moving one field to its value in the last by that field's rule, written out |
| RuleSearches.RequirementImplies | src/filter/implication_check.cpp:227-233 | the answer is yes exactly when the lowerings are equal or a chain of requirements leads from one to the other by the rules written out, and with a sound propositional oracle a yes means implication at every position of every trace |
| FieldRules.ResponseStepExact | src/filter/implication_check.cpp:108-117 | with an oracle that decides propositional implication, a change of response alone is found exactly when it is implied whatever condition, stop, mode and trace, or else is an `after` with a response that settles it: one way under plain scopes, the other under only scopes, both ways for `after` |
| FieldRules.ConditionStepExact | src/filter/implication_check.cpp:100-107 | the same of the condition, backwards for continual and both ways for a trigger, except where the new condition never holds or the body lasts once due and the condition is strengthened |
| FieldRules.StopStepExact | src/filter/implication_check.cpp:132-148 | and of the stop, without exception: onward in `until`, back in `before`, the reverse under an only scope |
| BoundaryDuality.NeverIsUnbounded | src/requirement.cpp:136-274 | a boundary that never holds gives the unbounded body, plain and negated |
| BoundaryDuality.ZeroTicksAreImmediate | src/requirement.cpp:136-158 | `within 0` and `for 0` mean `immediately`, plain and negated, at every boundary |
| BoundaryDuality.NegatedIsComplement | src/requirement.cpp:230-274 | without a boundary the negated body is the complement for every timing but `until` and `before`, is always implied by the complement, and overlaps the plain body exactly when the stop never comes and the response never changes |
| Comparisons.AgainstConstantMeans | scripts/import_fret.py:761-771 | a comparison is recognised exactly when one side is a variable and the other a number, signed or not, and what is recognised has the same truth under every valuation |
| Comparisons.Samples | scripts/import_fret.py:703-721 | every sample lies in the domain, and every value of the domain compares with all constants as some sample does, for reals, integers and the non-negative ones |
| Comparisons.SampledVectors | scripts/import_fret.py:774-778 | the vectors are exactly those some value of the infinite domain realises |
| Comparisons.TruthReadsVariables | scripts/import_fret.py:753-758 | a comparison's truth depends on the variables it names alone |
| Comparisons.VariablesAreRead | scripts/import_fret.py:753-758 | and a term names a variable exactly when under some arithmetic its value changes with that variable alone |
| Clauses.Entails | scripts/import_fret.py:728-750 | a conflict means entailment; for satisfiable clauses of at most two literals it is found exactly when the target holds in every model |
| Clauses.Propagate | scripts/import_fret.py:737-750 | the drained stack leaves the starts, closed under the implication graph, and only consequences |
| CnfSynthesis.ProductComplete | scripts/import_fret.py:911-913 | the product enumerates every vector |
| CnfSynthesis.FirstExtra | scripts/import_fret.py:911-915 | the search finds the first admitted vector outside the set, or there is none |
| CnfSynthesis.ShrinkCore | scripts/import_fret.py:916-921 | the greedy pass ends in a core no realised vector agrees with, every atom of which is needed |
| CnfSynthesis.CloseOver | scripts/import_fret.py:910-922 | the counterexample loop ends with exactly the given models; for a non-empty set every clause it adds has at least three literals, none droppable |
| CnfSynthesis.DropRedundant | scripts/import_fret.py:923-928 | the models are unchanged, and no binary clause left follows from the other clauses of at most two literals |
| CnfSynthesis.ExactClauses | scripts/import_fret.py:897-931 | the result's models are exactly the given set; for a non-empty set no literal of any clause can be dropped, every one- or two-literal consequence follows from the short clauses, and each binary clause left is needed beside all narrower ones; no binary clause is redundant |
| Thresholds.DomainClauses | scripts/import_fret.py:934-940 | the models are exactly the vectors some value of the variable realises; no literal can be dropped, every short consequence follows from the short clauses, and a binary clause reaches across a value exactly when that is no ordering's threshold and on either side of it some comparison takes both truth values over the domain |
| Thresholds.EqualityIsBridged | scripts/import_fret.py:934-936 | so with `x < 1`, `x > 3` and `x == 2` one of the clauses reaches across the threshold 2 |
| VariableGroups.Root | scripts/import_fret.py:959-962 | the walk ends at the root of an acyclic parent map, which it leaves as it was but for a new variable |
| VariableGroups.Groups | scripts/import_fret.py:955-970 | two comparisons share a group exactly when a chain of shared variables links them |
| VariableGroups.JointlyByGroups | scripts/import_fret.py:955-970 | a vector over all comparisons is realisable exactly when every group realises its part |
| DomainRequirements.ClausesOfGroup | scripts/import_fret.py:1005-1043 | a group's clauses, sampled or solved, admit exactly the truth vectors that some real, whole or non-negative whole numbers, as each variable is declared, give it; the failures are a group of more than 16 and one the solver leaves open |
| DomainRequirements.ClausesOfAll | scripts/import_fret.py:973-1049 | the clauses of all groups together admit exactly the truth vectors that some values give all comparisons at once, where an integer is a whole number, an unsigned integer one that is not negative and anything else a real |
| ForallExists.SmtVectors | scripts/import_fret.py:825-849 | blocking enumeration ends with exactly the realised vectors, or gives up because the solver did |
| ForallExists.ForallExistsVectors | scripts/import_fret.py:852-894 | the vectors are those always reached at their input vector, and all of them at an input vector no value gives; `loose` says whether two inputs of one vector differ; none only when the solver gives up |
| ForallExists.SplitGuarantee | scripts/import_fret.py:1017-1035 | the guarantee's clauses allow, at each input value, exactly the realisable outputs, or in the fallback exclude nothing that values realise |
| ThreadPools.ThreadPool.Submit | include/thread_pool.hpp:42-51 | a submission joins the back of its own queue and the other is untouched |
| ThreadPools.ThreadPool.EndWait | src/thread_pool.cpp:42-65 | a woken worker takes the front task, and stops only when nothing waits |
| ThreadPools.ThreadPool.IdleWorkers | src/thread_pool.cpp:67-71 | the waiting workers left once every queued task has taken one, zero when there are none |
| ThreadPools.ParseDigits | src/thread_pool.cpp:87-106 | accepts exactly the non-empty digit strings that denote a number below 2^64, with that number, and never wraps on the way |
| Dispatch.ForegroundGoesFirst | include/thread_pool.hpp:18-22 | in every run, until a queued foreground task is taken only those queued ahead of it are, and no background task is, so that what else holds it up is at most the task each worker already runs |
| ThreadPools.QuotaToWorkers | src/thread_pool.cpp:108-127 | a bound exactly when each text is digits between blanks that denote a number below 2^64, and the period is not zero; then the least positive number of workers that covers the quota |
| BoundedAsync.CompletionQueue.Push | include/bounded_async.hpp:46-53 | the entry joins the back and one less is outstanding, so the number in flight is unchanged |
| BoundedAsync.CompletionQueue.Pop | include/bounded_async.hpp:55-61 | the oldest result leaves and the number in flight falls by one |
| BoundedAsync.AssertPermutation | include/bounded_async.hpp:76-92 | the checks accept exactly the empty order and the permutations |
| BoundedAsync.PermutationCovers | include/bounded_async.hpp:73-75 | an accepted order drops no item and repeats none |
| BoundedAsync.CostOrderedIndices | include/bounded_async.hpp:110-127 | a permutation in descending cost, ties by index |
| BoundedAsync.LongestFirstIsUnique | include/bounded_async.hpp:106-109 | the permutation is a function of the comparisons between estimates alone |
| Dispatch.StepKeepsInv | include/bounded_async.hpp:173-243 | every step of dispatcher, worker or other caller conserves the launched items, the counter and the window |
| Dispatch.RunsAreSafe | include/bounded_async.hpp:152-243 | in every interleaving the counter is never negative, the number in flight never exceeds `max_in_flight`, or 1 where that is 0, a return has completed every item once, and neither return nor throw leaves a launched task queued or running |
| Dispatch.CalmRunsReturn | include/bounded_async.hpp:152-243 | when nothing throws the dispatcher never unwinds, and if it ends has launched and completed every item once |
| DispatchHistories.ThrowingTaskIsRaised | include/bounded_async.hpp:148-151 | in every run, a worker's item whose task throws is completed in no state, earlier or later, and the dispatch never returns normally after it |
| DispatchHistories.CallerThrowIsRaised | include/bounded_async.hpp:168-222 | once building, queuing or completing an item throws, nothing more is launched or completed and the dispatch never returns normally |
| DispatchHistories.ThrowsExactlyWhenThrown | include/bounded_async.hpp:148-151 | a run that cannot go on ends in a throw exactly when some task or some code of the caller threw in it, and in a return otherwise |
| Dispatch.BlockedHasUnfinished | include/bounded_async.hpp:176-182 | a blocked dispatcher with nothing to collect has an unfinished task of its own, which will report |
| Dispatch.NeverStuck | include/bounded_async.hpp:173-243 | with a worker in the pool, the dispatcher or a worker can always move |
| Dispatch.RunsAreShort | include/bounded_async.hpp:173-243 | in every run the steps of dispatcher and workers number at most a measure of its start and seven for each task another caller submits |
| Dispatch.RunsCollectInStep | include/bounded_async.hpp:234-242 | in every run slot `k` is launched when exactly as many results are collected as free its place, none or `k + 1 - window` |
| Dispatch.MaximalRunsEnd | include/bounded_async.hpp:173-243 | a run that cannot go on has brought the dispatcher to its end |
| DispatchHistories.ItemsQueueInOrder | include/bounded_async.hpp:234-239 | in every run the `k`-th item queued is entry `k` of the order given, or item `k` where none is, and a return has queued all |
| DispatchHistories.ItemsStartInOrder | include/thread_pool.hpp:18-24 | and so is the `k`-th item a worker takes, whatever else the pool runs |
| DispatchHistories.ResultsComeInOrder | include/bounded_async.hpp:55-61 | the results collected, and behind them those waiting, are the results handed in, in that order |
| Dispatch.FullWindowFeedsWorkers | include/thread_pool.hpp:53-56 | in every interleaving, with a window of a place a worker or more, a dispatcher that waits for a place with nothing to collect leaves no worker idle with nothing queued |
| Schedules.WindowFeedsWorkers | include/bounded_async.hpp:234-242 | through a window of a place a worker or more each item starts the moment the first worker comes free |
| Schedules.WindowGivesGreedy | include/bounded_async.hpp:234-242 | so the pool runs as list scheduling does, each item on a worker free no later than any other |
| Schedules.ScheduleExists | include/bounded_async.hpp:152-243 | any items can be so dispatched, on any number of workers through any window |
| Schedules.BoundsNeedWindow | include/bounded_async.hpp:96-105 | both bounds, `2 - 1/m` in any order and `4/3 - 1/(3m)` longest first, hold of every dispatch on `m` workers exactly when `m` is 1 or `max_in_flight` at least `m` |
| Schedules.CostOrderBound | include/bounded_async.hpp:96-127 | in such a window a dispatch launched in any order given finishes within `2 - 1/m` of every assignment, and within `4/3 - 1/(3m)` where the order given is that of estimates that rank the durations |
| CanonicalForms.CanonicalMeans | src/prop_formula/canonical.cpp:47-103 | the normal form has the formula's meaning on every trace at every position |
| CanonicalForms.RespellingsShareForm | include/prop_formula.hpp:185-188 | operands swapped, regrouped or repeated, and negation written twice, leave the normal form as it is |
| NormalForms.NormalExactly | src/prop_formula/canonical.cpp:47-103 | a formula is its own normal form exactly when the operands of every chain are in strict order, those of `<->` in order, chains lean left and no negation is doubled; and every normal form is one |
| ArenaOrder.ArenasOrdered | src/prop_formula/internal.hpp:43-54 | the lexicographic comparison of node arenas is a total order of formulas, an arena determining its formula |
| ArenaOrder.LikeFormulasOrdered | include/prop_formula.hpp:37-50 | it puts atoms by their names, a formula before what is built on it, and over the same operands goes by the connectives in their listed order |
| CanonicalForms.CanonicalIsNormal | src/prop_formula/canonical.cpp:47-103 | it keeps meaning, adds no atoms, and leaves formulas without commutative connectives and double negations alone |
| FormulaKey.CollectAtoms | src/formula_key.cpp:25-41 | the atoms in order of first appearance, constants left out |
| KeyNumbering.RenamedFormNumbers | src/formula_key.cpp:110-121 | the renamed form calls each atom `fk` and the number of other atoms written before it |
| FormulaKey.RenamedKeyIsExact | src/formula_key.cpp:100-121 | two canonical forms share the renamed key exactly when a one-to-one renaming carries one to the other |
| RenamedKeys.SharedKeyMeans | src/formula_key.cpp:100-121 | behind a shared key is a one-to-one renaming that carries one canonical form to the other, and one formula says of every trace what the other says of the trace read through it |
| RenamedKeys.RenamingKeepsKey | include/formula_key.hpp:44-48 | a formula renamed one to one keeps its key when the renaming keeps the comparisons of the operands its canonical form sorts |
| RenamedKeys.KeyKeptExactly | include/formula_key.hpp:44-48 | with a total order, it keeps the key exactly when some renaming that keeps those comparisons gives the same formula but for the spelling |
| RenamedKeys.WaitsShareKey | include/formula_key.hpp:44-48 | `(x U y) & (y U z)` and the same with `x` and `z` swapped share the key exactly when `x` and `z` both come before `y` or neither does |
| Realizability.RenameMeans | src/formula_key.cpp:43-56 | a renamed formula says of a trace what the formula says of the trace read through the renaming |
| Realizability.RenamingKeepsRealizability | include/formula_key.hpp:54-58 | renaming the signals one to one, each to its own side, does not change whether a causal strategy wins, whatever else the alphabets hold |
| RealizabilityKey.SparesAreNatural | src/formula_key.cpp:163-170 | the two unsigned subtractions never go below zero |
| RealizabilityKey.BuildKey | src/formula_key.cpp:141-170 | the counted loop and the map it fills give the key |
| KeyNumbering.SideFormNumbers | src/formula_key.cpp:141-161 | each atom on the list of inputs is called `fi` and the number of inputs written before it, each other output `fo` and the number of these before it, and the rest keep their names |
| KeyNumbering.SparesCounted | src/formula_key.cpp:162-169 | the two counts are the lengths of the lists less the declared atoms of that side that are written |
| RealizabilityKey.TaggedInjective | src/formula_key.cpp:128-129 | nothing is lost in writing a text and two counts with a mark no number contains |
| RealizabilityKey.KeyDecides | src/formula_key.cpp:123-170 | a query is realizable exactly when the form in its key is, over sides read off the new names |
| RealizabilityKey.EqualKeysEqualVerdicts | src/formula_key.cpp:123-170 | two queries with one key, over one run's lists or two, are realizable together on either convention for undeclared atoms, when none of these is spelt like a name either may hand out |
| RealizabilityKey.KeyIsExact | src/formula_key.cpp:150-170 | a shared key is exactly a one-to-one renaming that keeps each atom on its side, and alphabets of equal sizes |
| RealizabilityKey.EqualKeysBiject | src/formula_key.cpp:123-170 | over duplicate-free disjoint lists one renaming is a bijection of inputs with inputs and outputs with outputs and carries one form to the other |
| StrayNames.NewNameBreaksKey | src/formula_key.cpp:150-161 | for every spelling of a new name an undeclared atom may have, and on either convention, two formulas in normal form share a key and differ in realizability |
| StrayNames.KeySafeExactly | src/formula_key.cpp:123-170 | over one run's lists, queries whose undeclared atoms are from a given set have one verdict a key if and only if the set holds no name the lists can be given |
| RealizabilityKey.KeyMemo.Realizability | src/formula_key.cpp:123-140 | for lists that may change, the first key of a text and two sizes answers every later query with them; with one run's lists throughout that is the key that would be computed |
| RealizabilityKey.MemoNeedsConstantLists | src/formula_key.cpp:126-129 | were the lists to change within a run, their sizes would not tell two queries apart |
| Quotients.QuotientByEquivalence | src/maximal.cpp:208-236 | a survivor is in the class of the first earlier one that each is said to imply and no fingerprint tells apart, and in a class of its own where there is none |
| Quotients.ByFirstAppearance | src/maximal.cpp:208-236 | classes 0 to n-1 are all used and numbered as they appear |
| Quotients.ExactOracleExactClasses | src/maximal.cpp:208-236 | with an exact oracle behind a sound prefilter two survivors share a class exactly when each implies the other |
| Quotients.SoundOracleSoundClasses | src/maximal.cpp:208-236 | with a merely sound oracle a shared class still means equivalence |
| Quotients.FilterChangesNothing | src/maximal.cpp:199-207 | a sound refuting prefilter leaves the quotient as it is without one |
| Maximality.CarriedForward | scripts/score_curves.py:347-356 | representatives of the old representatives and the new arrivals are representatives of everything |
| Maximality.CountsAgree | scripts/score_curves.py:358-362 | any two choices of representatives give equal counts, of classes and of classes implying an ideal |
| Maximality.MaximalityRows | scripts/score_curves.py:341-409 | every row holds the counts a fresh computation on all files found by its cut would give; each row takes in files the one before did not; no row is past an expired deadline, and without one or a failing filter every cut is answered |
| SeedRanges.ParseSeedRange | scripts/campaign.py:1536-1558 | the loop reads a text as its parts, the first bad part deciding the error |
| SeedGrammar.SeedRangeReads | scripts/campaign.py:1536-1558 | a text reads as a list exactly when it is runs `a` or `a-b` between commas and blanks, `a` at most `b`, no two sharing a seed, and the list is what they hold in order; it is a repetition exactly when two share one, and empty exactly when blank |
| SeedGrammar.SeedRangeRefused | scripts/campaign.py:1536-1558 | any other refusal is that of the first bad part: blank, no seed or span, or counting backwards |
| SeedRanges.FormatSeedRange | scripts/campaign.py:1589-1601 | the loop writes the maximal runs of the sorted seeds |
| SeedGrammar.SeedRangeWrites | scripts/campaign.py:1589-1601 | seeds without repeats are written as runs with a gap between any two, a run of one as itself, between commas, that hold just these seeds |
| SeedRanges.FormatParses | scripts/campaign.py:1589-1601 | a written list reads back as the same seeds in order exactly when it has a seed and repeats none |
| SeedRanges.ParseFormats | scripts/campaign.py:1536-1558 | reading gives distinct ascending seeds, and writing and reading them again changes nothing |
| HostSplits.ParseHostSplit | scripts/campaign.py:1561-1586 | a table is accepted exactly when every line is sound and no two hosts share a seed, with the shares the lines spell, and is otherwise refused for its first bad line, or for the shared seed |
| HostSplits.ReadsAccepted | scripts/campaign.py:1561-1586 | an accepted table's shares are non-empty, ascending, without repeats and pairwise disjoint |
| HostSplits.FrozenTextReads | scripts/campaign.py:2357-2364 | an entry's frozen text for a phase reads back as exactly those of the phase's seeds that the split gives the host, and is empty when there are none |
| HostSplits.FrozenTextsDisjoint | scripts/campaign.py:1561-1586 | two hosts never run one seed in one phase |
| CampaignQueue.StepExclusive | scripts/campaign.py:2819-2940 | every tick step, kill and enqueue keeps at most one entry running on disk, and the tick knows which |
| CampaignQueue.RunsAreSafe | scripts/campaign.py:2803-2940 | in every run at most one entry is running on disk, and no phase starts before every phase ahead of it exited 0 or had no seeds |
| CampaignQueue.RunsStayBelowCap | scripts/campaign.py:2790-2800 | when every entry may fail once, what waits or runs has attempts left |
| CampaignOutcomes.DoneExactlyWhenOver | scripts/campaign.py:2876-2940 | in every run a queue entry with phases is done exactly when each of its phases has exited 0 or was without seeds, and what has is what lies behind its current phase |
| CampaignOutcomes.FailedExactlyAtCap | scripts/campaign.py:2790-2800 | in every run of entries that may fail once, the failed are exactly those that have spent their attempts |
| CampaignOutcomes.ExitLeaves | scripts/campaign.py:2919-2936 | a phase that exits 0 leaves its entry queued at the next with no attempt spent, or done after the last; one that exits otherwise costs an attempt, the last of which fails the entry; no other file changes |
| CampaignOutcomes.SkipLeaves | scripts/campaign.py:2886-2895 | a phase without seeds on the host is stepped over, the attempts as they were |
| CampaignOutcomes.SilentEndLeaves | scripts/campaign.py:2849-2873 | a tick that ends on an entry without running or skipping a phase has spent an attempt, or found no phase left, or was a dry run that leaves the entry waiting |
| CampaignOutcomes.RecoveryLeaves | scripts/campaign.py:2803-2816 | recovery spends an attempt of each entry left running, and touches nothing else |
| CampaignOutcomes.PickIsFirst | scripts/campaign.py:2834-2842 | the entry picked is the first queued one of the host asked for, and none is picked only if there is none |
| CampaignOutcomes.StartIsEarned | scripts/campaign.py:2838-2909 | a phase starts only in a tick that has found or staged the commit, loaded the declaration and found the configurations, at the entry's next phase, which has seeds and is not blocked |
| CampaignQueue.FailuresToStop | scripts/campaign.py:2790-2800 | from no attempt spent an entry fails with as many failures as its cap, and until then waits at its phase |
| CampaignQueue.TickSettles | scripts/campaign.py:2838-2940 | from its pick to its end a tick that is not killed and not a dry run leaves the entry it picked with an attempt spent, failed if that was the last; or at the next phase, done if there is none; or done for want of a phase: through staging and a restart and whatever is enqueued meanwhile |
| CampaignQueue.QueueDrains | scripts/campaign.py:2803-2940 | ticks that end and recoveries of killed ones together are bounded by the phases and attempts of the queue |
| CampaignQueue.NewEntryTextsRead | scripts/campaign.py:2343-2364 | a new entry is queued at its first phase with no attempt spent, and every phase text of one made from an accepted campaign is empty or reads |
| CampaignQueue.RunsKeepTexts | scripts/campaign.py:2899-2899 | no tick meets a seed text it cannot read |

## Left out

- TimingExact.TimingOrderExact: zero-tick `within` and `for` are outside the table, which the code asserts;
  where both timings carry a stop the stop is one shared formula, as unequal stops are another field's
  comparison (`RuleSearches.ScopedStopMono`).
- TimingOrderAtTrue.TimingOrderExactAtTrue: the same of zero ticks and stops.
- RuleSearches.RequirementImplies: the search is complete for chains of rules, which not every implication
  is; slots of a specification and the cover statistics are not modelled.
- Fretish.ExpandAfter: tick counts are unbounded numbers, so the wrap-around of `ticks + 1` at the largest
  64-bit count is not modelled.
- The characters of the printed strings, and the parser that reads them; the model is the formula denoted.
- `ltl_conjunction`, `live_indices` and the removal of duplicate requirements and signals.
- Comparisons.Samples: an empty list of constants, which no caller passes and which the real branch
  rejects by an index error, is outside the precondition.
- CnfSynthesis.DropRedundant: the order of the pass is followed, but which of several irredundant results
  it picks is characterised only by what is needed beside narrower clauses.
- VariableGroups.Groups: the order of the groups and of the atoms within one is not modelled, and the
  variables of a comparison may be listed in any order, not only sorted. A comparison without variables,
  on which the original raises, is outside the precondition.
- DomainRequirements.ClausesOfAll: which side a group's requirement goes to, the rendering of clauses as
  text and the notes; groups that compare inputs with outputs are `ForallExists.SplitGuarantee`.
- The solver is asked as a function of its query, so a time-out is the same at every repetition.
- Spurious wake-ups, memory ordering, thread creation, and a `push` that throws for want of memory.
- A task that starts a dispatch of its own from inside the pool; other callers' tasks are taken to finish.
- Schedules.CostOrderBound: dispatch itself takes no time and the pool runs nothing else meanwhile; ties
  between free workers may fall either way.
- Reading cgroup files and CPU affinity; of that code only the number and quota arithmetic is modelled.
- `std::sort` is an insertion sort with the same comparator; costs that are not numbers are left out.
- ArenaOrder.ByArena: names compare by their characters, as the original's bytes do for ASCII names. A
  printer is any injective one.
- RealizabilityKey.EqualKeysEqualVerdicts: formulas that parse; unparseable text is its own key.
- StrayNames.KeySafeExactly: necessity is over the lists of one run; between runs with lists of different
  sizes the condition is shown to be enough at the larger sizes.
- How the cut times of a curve are chosen; they are a parameter, ascending as `time_cuts` returns them. The
  CSV rows and the two metrics' names.
- Digits and blanks beyond ASCII in seed texts, which the original's `isdigit` and `strip` also accept.
- An entry is rewritten in memory and at once written out whole, so the model rewrites it on disk in one
  step; the log lines, time stamps and process id of an entry are not modelled.
- Hand interventions on the queue (`requeue`, `dequeue`) and remote staging.
- CampaignQueue.QueueDrains: a tick's declaration is taken to have as many phases as the entry was queued
  with, which its frozen commit is there to ensure; so for CampaignQueue.TickSettles.
- Genetic search, fitness, rule search over whole specifications, external solvers, user interface, and
  file formats.
