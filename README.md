# Random-walk planner, modelled in Dafny

This project models PDDL4J's `MCTSPlanner` and proves properties of the model. Despite its name the planner builds no search tree. `solve` runs up to `numberOfWalks` bounded random walks from the problem's initial state. It keeps the shortest plan found, where only a strictly shorter plan replaces the best one. It stops early as soon as the best plan has at most 10 actions.

Each walk works as follows:
- It tests the goal at the head of every step.
- It computes the catalogue actions applicable in the current state.
- It optionally narrows them with two fallback filters: deadlock avoidance, then helpful actions. Each filter returns its input unchanged when its own result would be empty.
- It picks one candidate with the random source, remembers the state it leaves, applies the action and appends it to the plan.

Applying an action (`applyAction`) copies the state. Every conditional effect whose guard holds in the original state is then applied to the copy, in list order.

Modules, one per part of the planner:

- `Planning` (planning.dfy):
  - The data model: facts, states as fact sets, conditions, effects, conditional effects, actions, problems and their requirement keys.
  - The planner's options, with Java's `int` as `int32`.
  - Applicability, goal satisfaction and `isSupported`.
- `Sublists` (sublists.dfy): the "loop and add when the test passes" pattern behind the action lists (`Keep`), the fallback rule of the filters (`KeepOrAll`), and their laws.
- `ActionApplication` (application.dfy): the successor function and the `applyAction` loop.
- `ActionFilters` (filters.dfy): `getApplicableActions`, `filterDeadlockActions`, `isHelpfulAction` and `filterHelpfulActions`. Each is a method with its loop, proved equal to a specification function.
- `RandomWalk` (walk.dfy):
  - `performRandomWalk` as a method with its loop, proved equal to the function `Walk`.
  - The walk invariant (visited states are exactly the states left so far, and the plan length is the step index).
  - Plan validity and the filtering policy.
- `Scheduler` (scheduler.dfy):
  - `performMCTS` as a method with its loop, proved equal to the function `Search`.
  - `Search` is characterised as "the first shortest plan among the walks run, with the early stop".
  - `Scan` runs the same loop over walk results listed in advance, and `SearchFromScans` proves the two loops agree. The characterisation is proved on `Scan`.
  - `solve`.

### The random source

`java.util.Random.nextInt(n)` becomes a `Chooser`, a function `pick` from a call number and a bound to a natural number. Call number `k` returns `pick(k, n) % n`.

The draw counter runs across all walks of one search. Walk `i + 1` therefore draws where walk `i` stopped, as the planner's single `Random` field does.

Every sequence of valid indices is produced by some chooser, so whatever is proved for all choosers holds for every behaviour of the generator. Because `Walk` and `Search` are functions of the chooser and the draw count, a fixed random sequence gives a fixed result.

### Edge cases of the code that the model keeps

- **Walk length cap of zero or less.** A walk returns no plan, even when the initial state already satisfies the goal, because the loop body that tests the goal never runs. See `RandomWalk.NoStepsNoPlan`.
- **Goal reached on the last step.** The goal is tested only at the loop head. A walk that reaches the goal on its last allowed step therefore returns no plan, and every plan it returns is strictly shorter than `maxWalkLength`. See `RandomWalk.SingleActionWalk` and `RandomWalk.WalkSucceedsWithValidPlan`.
- **`isSupported`.** It accepts any problem that declares no requirement or that lists STRIPS. This includes a problem that lists STRIPS next to requirements the planner does not handle. See `Planning.IsSupported` and `Planning.StripsWithExtensionsIsSupported`.

## Model

| member | source | states |
|---|---|---|
| Planning.IsSupported | src/main/java/fr/uga/pddl4j/planners/mcts/MCTSPlanner.java:208-212 | A problem is supported iff it declares no requirement or lists STRIPS, whatever else it lists beside STRIPS. |
| Planning.StripsWithExtensionsIsSupported | src/main/java/fr/uga/pddl4j/planners/mcts/MCTSPlanner.java:210-211 | STRIPS listed beside numeric fluents still passes the check. |
| ActionApplication.ApplyAction | src/main/java/fr/uga/pddl4j/planners/mcts/MCTSPlanner.java:196-206 | The loop over the conditional effects returns the successor: the effects whose guard holds in the input state, applied in list order to a copy. |
| ActionApplication.SuccessorOrigin | src/main/java/fr/uga/pddl4j/planners/mcts/MCTSPlanner.java:199-203 | Every fact of the successor was already in the state or is added by an effect whose guard holds in the input state. |
| ActionApplication.SuccessorFrame | src/main/java/fr/uga/pddl4j/planners/mcts/MCTSPlanner.java:199-203 | A fact that no firing effect deletes survives into the successor. |
| ActionApplication.SuccessorAdds | src/main/java/fr/uga/pddl4j/planners/mcts/MCTSPlanner.java:199-203 | A fact added by a firing effect is in the successor unless a later firing effect deletes it. |
| ActionApplication.SuccessorDeletes | src/main/java/fr/uga/pddl4j/planners/mcts/MCTSPlanner.java:199-203 | A fact deleted by a firing effect is absent unless that effect or a later firing one adds it. |
| ActionApplication.NoFiringNoChange | src/main/java/fr/uga/pddl4j/planners/mcts/MCTSPlanner.java:199-203 | Effects whose guards all fail leave the copy as it was. |
| ActionApplication.GuardsReadThePreState | src/main/java/fr/uga/pddl4j/planners/mcts/MCTSPlanner.java:200 | An effect guarded by a fact that an earlier effect adds does not fire, because guards read the input state and not the updated copy. |
| Sublists.KeepSelectsExactly | src/main/java/fr/uga/pddl4j/planners/mcts/MCTSPlanner.java:149-157 | The loop-and-add pattern yields exactly the elements at the positions that pass the test, in input order. |
| Sublists.KeepMembers | src/main/java/fr/uga/pddl4j/planners/mcts/MCTSPlanner.java:149-157 | An element is kept iff it occurs in the input and passes the test. |
| Sublists.FallbackLaws | src/main/java/fr/uga/pddl4j/planners/mcts/MCTSPlanner.java:160-183 | The fallback rule yields an order-preserving sublist. It is empty iff the input is empty. When some element passes, it holds exactly the passing elements. When none passes, it is the input. |
| ActionFilters.GetApplicableActions | src/main/java/fr/uga/pddl4j/planners/mcts/MCTSPlanner.java:148-158 | The loop returns the applicable actions of the catalogue, in catalogue order. |
| ActionFilters.ApplicableExactly | src/main/java/fr/uga/pddl4j/planners/mcts/MCTSPlanner.java:148-158 | The result is exactly the catalogue actions whose precondition holds, in catalogue order. An action is in it iff it is in the catalogue and applicable. |
| ActionFilters.FilterDeadlockActions | src/main/java/fr/uga/pddl4j/planners/mcts/MCTSPlanner.java:160-171 | The loop, which applies each action to the state, returns the actions whose successor is unvisited, or all actions when there are none. |
| ActionFilters.DeadlockFilterFallback | src/main/java/fr/uga/pddl4j/planners/mcts/MCTSPlanner.java:160-171 | The deadlock filter returns an order-preserving sublist. It is non-empty iff its input is non-empty. It is the identity when every successor is visited. |
| ActionFilters.DeadlockFilterKeepsUnvisited | src/main/java/fr/uga/pddl4j/planners/mcts/MCTSPlanner.java:163-170 | When some successor is unvisited, the filter keeps exactly the actions with an unvisited successor, in order. |
| ActionFilters.IsHelpfulAction | src/main/java/fr/uga/pddl4j/planners/mcts/MCTSPlanner.java:185-194 | The result is true iff some effect's guard holds in the current state and all facts that effect adds are goal facts. |
| ActionFilters.FilterHelpfulActions | src/main/java/fr/uga/pddl4j/planners/mcts/MCTSPlanner.java:173-183 | The loop returns the helpful actions, or all actions when none is helpful. |
| ActionFilters.HelpfulFilterFallback | src/main/java/fr/uga/pddl4j/planners/mcts/MCTSPlanner.java:173-183 | The helpful-action filter returns an order-preserving sublist. It is non-empty iff its input is non-empty. It is the identity when no action is helpful. |
| ActionFilters.HelpfulFilterKeepsHelpful | src/main/java/fr/uga/pddl4j/planners/mcts/MCTSPlanner.java:176-182 | When some action is helpful, the filter keeps exactly the helpful actions, in order. |
| ActionFilters.FilterMembers | src/main/java/fr/uga/pddl4j/planners/mcts/MCTSPlanner.java:160-183 | Each filter returns only actions of its input. |
| RandomWalk.PerformRandomWalk | src/main/java/fr/uga/pddl4j/planners/mcts/MCTSPlanner.java:110-146 | The walk loop returns the plan and draw count of `Walk`. It keeps the walk invariant: plan length equals the step index, the current state is the replay of the plan, and the visited states are exactly the states left. |
| RandomWalk.WalkInvariantStep | src/main/java/fr/uga/pddl4j/planners/mcts/MCTSPlanner.java:140-142 | A step keeps the walk invariant, so `plan.add(step, a)` appends and the visited set gains exactly the state left. |
| RandomWalk.TraceSteps | src/main/java/fr/uga/pddl4j/planners/mcts/MCTSPlanner.java:141 | Each replayed state is its predecessor with the plan's action applied. |
| RandomWalk.FilteredLaws | src/main/java/fr/uga/pddl4j/planners/mcts/MCTSPlanner.java:120-136 | Every candidate is an applicable catalogue action. The candidates are empty iff no action is applicable. |
| RandomWalk.WalkFromExtends | src/main/java/fr/uga/pddl4j/planners/mcts/MCTSPlanner.java:115-143 | A plan returned from the loop extends the plan so far and is shorter than maxWalkLength. One draw was made per action added. |
| RandomWalk.WalkFromFollowsPolicy | src/main/java/fr/uga/pddl4j/planners/mcts/MCTSPlanner.java:115-143 | A plan returned from the loop takes only filtered candidates, reaches the goal at its end, and does not reach it earlier. |
| RandomWalk.PolicyPlanIsValid | src/main/java/fr/uga/pddl4j/planners/mcts/MCTSPlanner.java:120-141 | A plan that takes only filtered candidates and ends in the goal is valid. |
| RandomWalk.WalkSucceedsWithValidPlan | src/main/java/fr/uga/pddl4j/planners/mcts/MCTSPlanner.java:115-145 | A successful walk returns a plan shorter than maxWalkLength. Replayed from the initial state, every action is a catalogue action applicable where it is taken, and the goal holds at the end and at no earlier state. |
| RandomWalk.RevisitOnlyWhenForced | src/main/java/fr/uga/pddl4j/planners/mcts/MCTSPlanner.java:126-128 | With deadlock avoidance on, a step leads back to a visited state only when every applicable action there does. |
| RandomWalk.UnhelpfulOnlyWhenForced | src/main/java/fr/uga/pddl4j/planners/mcts/MCTSPlanner.java:130-132 | With helpful actions on, an unhelpful step is taken only when no candidate left by the deadlock stage is helpful. |
| RandomWalk.NoStepsNoPlan | src/main/java/fr/uga/pddl4j/planners/mcts/MCTSPlanner.java:115 | A walk length cap of zero or less yields no plan and no draw, even when the initial state satisfies the goal. |
| RandomWalk.SingleActionWalk | src/main/java/fr/uga/pddl4j/planners/mcts/MCTSPlanner.java:115-143 | In a one-action catalogue whose action reaches the goal, the walk returns that one-step plan when maxWalkLength is at least 2, and no plan when it is 1. |
| Scheduler.ShortestIsFirstShortest | src/main/java/fr/uga/pddl4j/planners/mcts/MCTSPlanner.java:96-98 | Keeping only strictly shorter plans selects None when every walk failed, and otherwise the first plan of minimum length. |
| Scheduler.ShortestSnoc | src/main/java/fr/uga/pddl4j/planners/mcts/MCTSPlanner.java:96-98 | A new walk result replaces the best plan and its length exactly when it is a plan strictly shorter than bestPlanLength. |
| Scheduler.BestLengthNonIncreasing | src/main/java/fr/uga/pddl4j/planners/mcts/MCTSPlanner.java:91-98 | bestPlanLength never increases as more walks are processed. |
| Scheduler.NoShortWalkNoStop | src/main/java/fr/uga/pddl4j/planners/mcts/MCTSPlanner.java:102 | While no walk found a plan of at most 10 actions, bestPlanLength stays above 10. |
| Scheduler.WalksEntry | src/main/java/fr/uga/pddl4j/planners/mcts/MCTSPlanner.java:93-94 | Walk i of a search is the walk that starts with the draws left by the first i walks. |
| Scheduler.WalksAreValid | src/main/java/fr/uga/pddl4j/planners/mcts/MCTSPlanner.java:93-94 | Every plan among the walk results is valid and shorter than maxWalkLength. |
| Scheduler.SearchFromScans | src/main/java/fr/uga/pddl4j/planners/mcts/MCTSPlanner.java:93-105 | Running the walks one after the other inside the loop gives the same result as the loop over the batch of the budget's walks. |
| Scheduler.ScanRuns | src/main/java/fr/uga/pddl4j/planners/mcts/MCTSPlanner.java:93-105 | From any walk on, the loop returns the best plan of the walks up to where it stops. No earlier walk found a plan of at most 10 actions, and it stops before the budget only right after a walk that did. |
| Scheduler.WalksAgree | src/main/java/fr/uga/pddl4j/planners/mcts/MCTSPlanner.java:93-94 | Batches of walks from the same draws agree on the walks they share. |
| Scheduler.RunsWalksUnique | src/main/java/fr/uga/pddl4j/planners/mcts/MCTSPlanner.java:93-104 | "The search runs exactly m walks" holds of at most one m: at most numberOfWalks, no walk before the last found a plan of at most 10 actions, and the budget is cut short only right after one that did. |
| Scheduler.SearchCharacterization | src/main/java/fr/uga/pddl4j/planners/mcts/MCTSPlanner.java:89-108 | The search runs exactly m walks, in that sense. It returns the first shortest plan among them, or None when none succeeded. |
| Scheduler.SearchPlanIsValid | src/main/java/fr/uga/pddl4j/planners/mcts/MCTSPlanner.java:89-108 | A plan the search returns is valid and shorter than maxWalkLength. |
| Scheduler.GoalAtStartGivesEmptyPlan | src/main/java/fr/uga/pddl4j/planners/mcts/MCTSPlanner.java:93-104 | When the initial state satisfies the goal and both limits are at least 1, the search runs exactly one walk and returns the empty plan. |
| Scheduler.SingleActionSearch | src/main/java/fr/uga/pddl4j/planners/mcts/MCTSPlanner.java:93-104 | In a one-action catalogue whose action reaches the goal, with maxWalkLength at least 2, the search returns that one-step plan. |
| Scheduler.StuckWalkFails | src/main/java/fr/uga/pddl4j/planners/mcts/MCTSPlanner.java:120-124 | A walk from a state with no applicable action that misses the goal fails. |
| Scheduler.StuckProblemHasNoPlan | src/main/java/fr/uga/pddl4j/planners/mcts/MCTSPlanner.java:93-107 | With no applicable action in an initial state that misses the goal, the search runs exactly the whole budget of walks and returns no plan. |
| Scheduler.PerformMCTS | src/main/java/fr/uga/pddl4j/planners/mcts/MCTSPlanner.java:89-108 | The loop of `performMCTS` returns `Search`, with bestPlanLength non-increasing over its iterations. |
| Scheduler.Solve | src/main/java/fr/uga/pddl4j/planners/mcts/MCTSPlanner.java:71-87 | `solve` searches from the initial state towards the goal's facts, and any plan it returns is valid. |

## Left out

- The random generator: `java.util.Random`, its seeding and the constructors that create it (lines 58-68) are replaced by the chooser. The generator's state after a search is not returned.
- Logging and wall-clock timing in `solve`, including the `double` seconds (lines 72-74, 81-84), and the debug message on a better plan in `performMCTS` (line 99): side effects and floating point.
- Option parsing with picocli and `main` (lines 31-56, 214-222): command-line plumbing.
- The getters and setters (lines 225-235) and the option defaults (1000 walks of at most 100 steps, both filters off, lines 38-56). The options are a `Config` value passed in, and every lemma holds for all option values.
- `scripts/benchmark_comparison.py`: process launching, file output and plotting around the planner. It is not part of this model.
- PDDL4J's `State`, `Action`, `ConditionalEffect`, `Problem` and `SequentialPlan` are not part of this model. They are modelled as follows:
  - States are fact sets.
  - `State.apply` deletes, then adds.
  - The goal state built at line 77 holds the goal condition's positive facts.
  - `satisfy` is fact inclusion.
- Requirement keys: only the keys listed in `Planning.RequireKey` are modelled, a subset of PDDL4J's enumeration, and the result of `isSupported` does not depend on which other keys exist.
- Identity and aliasing: states are values. `applyAction` never mutates its input, and the copies at lines 111 and 140 are implicit.
- Scheduler.BestLengthNonIncreasing: stated for result lists whose plans are shorter than `Integer.MAX_VALUE`. Every list of walk results is one of these, by `Scheduler.WalksAreValid`.
- Scheduler.PerformMCTS: the monotone bestPlanLength is a loop invariant over a ghost history, not an `ensures`. The postcondition is the equality with `Search`, whose properties are the lemmas above.
