/**
 * One bounded random walk (`performRandomWalk`): from the initial state, test
 * the goal, compute and filter the applicable actions, pick one with the
 * random source, remember the state left and append the action to the plan.
 *
 * The random source is a Chooser: the k-th call `nextInt(n)` of a walk
 * sequence returns `pick(k, n) % n`. Every sequence of valid indices is the
 * output of some chooser, so the lemmas below hold whatever the generator.
 */
module RandomWalk {
  import opened Planning
  import opened ActionApplication
  import opened ActionFilters
  import opened Sublists

  /** The random source: call number and bound to a raw draw, reduced modulo the bound. */
  type Chooser = (nat, nat) -> nat

  /** A walk's plan (None for Java's null) and the number of draws made so far. */
  datatype WalkOutcome = WalkOutcome(plan: Option<seq<Action>>, draws: nat)

  /** The states met replaying plan from s: t[0] is s and t[j + 1] is plan[j] applied to t[j]. */
  function Trace(s: State, plan: seq<Action>): (t: seq<State>)
    ensures |t| == |plan| + 1 && t[0] == s
  {
    if plan == [] then [s]
    else
      var before := Trace(s, plan[..|plan| - 1]);
      before + [Successor(before[|before| - 1], plan[|plan| - 1])]
  }

  /** The first j states of a trace, as a set. */
  function Seen(t: seq<State>, j: nat): set<State>
    requires j <= |t|
  {
    set i | 0 <= i < j :: t[i]
  }

  /** The candidates after the deadlock filter (when it is on). */
  function DeadlockStage(cfg: Config, applicable: seq<Action>, s: State, visited: set<State>): seq<Action>
  {
    if cfg.useDeadlockAvoidance then FilterDeadlock(applicable, s, visited) else applicable
  }

  /** The candidates after both filters (each when it is on), deadlock avoidance first, as `performRandomWalk` applies them. */
  function Filtered(cfg: Config, applicable: seq<Action>, s: State, visited: set<State>, goal: State): seq<Action>
  {
    var afterDeadlock := DeadlockStage(cfg, applicable, s, visited);
    if cfg.useHelpfulActions then FilterHelpful(afterDeadlock, s, goal) else afterDeadlock
  }

  /**
   * The walk loop from step `step` on, in state s, with the visited states,
   * the plan so far and k draws made. The goal is tested only at the loop head.
   */
  function WalkFrom(p: Problem, cfg: Config, goal: State, pick: Chooser,
                    s: State, visited: set<State>, plan: seq<Action>, step: int, k: nat): WalkOutcome
    decreases cfg.maxWalkLength as int - step
  {
    if step >= cfg.maxWalkLength as int then WalkOutcome(None, k)
    else if Satisfies(s, goal) then WalkOutcome(Some(plan), k)
    else
      var applicable := Applicable(p.actions, s);
      if applicable == [] then WalkOutcome(None, k)
      else
        var candidates := Filtered(cfg, applicable, s, visited, goal);
        if candidates == [] then WalkOutcome(None, k)
        else
          var a := candidates[pick(k, |candidates|) % |candidates|];
          WalkFrom(p, cfg, goal, pick, Successor(s, a), visited + {s}, plan + [a], step + 1, k + 1)
  }

  /** A whole walk from init, starting with k draws made. */
  function Walk(p: Problem, cfg: Config, init: State, goal: State, pick: Chooser, k: nat): WalkOutcome
  {
    WalkFrom(p, cfg, goal, pick, init, {}, [], 0, k)
  }

  /**
   * What the walk loop keeps: the plan has one action per step taken, s is where
   * replaying it from init leads, and visited holds exactly the states left so far.
   */
  ghost predicate WalkInvariant(init: State, s: State, visited: set<State>, plan: seq<Action>, step: int)
  {
    var t := Trace(init, plan);
    step == |plan| && s == t[|plan|] && visited == Seen(t, |plan|)
  }

  /** Every step of plan is an action the filters offered in the state it was taken in. */
  ghost predicate FollowsPolicy(p: Problem, cfg: Config, goal: State, init: State, plan: seq<Action>)
  {
    var t := Trace(init, plan);
    forall j :: 0 <= j < |plan| ==>
      plan[j] in Filtered(cfg, Applicable(p.actions, t[j]), t[j], Seen(t, j), goal)
  }

  /** No state before the last one of the replay satisfies the goal. */
  ghost predicate GoalOnlyAtEnd(init: State, goal: State, plan: seq<Action>)
  {
    var t := Trace(init, plan);
    forall j :: 0 <= j < |plan| ==> !Satisfies(t[j], goal)
  }

  /** Replayed from init, every action is a catalogue action applicable where it is taken, and the goal holds at the end. */
  ghost predicate ValidPlan(p: Problem, init: State, goal: State, plan: seq<Action>)
  {
    var t := Trace(init, plan);
    && (forall j :: 0 <= j < |plan| ==> plan[j] in p.actions && IsApplicable(plan[j], t[j]))
    && Satisfies(t[|plan|], goal)
  }

  /** Each state of a trace is its predecessor with the corresponding plan action applied. */
  lemma {:induction false} TraceSteps(s: State, plan: seq<Action>)
    ensures forall j :: 0 <= j < |plan| ==> Trace(s, plan)[j + 1] == Successor(Trace(s, plan)[j], plan[j])
  {
    if plan != [] {
      var n := |plan| - 1;
      TraceSteps(s, plan[..n]);
      assert Trace(s, plan)[..n + 1] == Trace(s, plan[..n]);
    }
  }

  /** Appending an action extends the trace by the state that action leads to. */
  lemma TraceSnoc(s: State, plan: seq<Action>, a: Action)
    ensures Trace(s, plan + [a]) == Trace(s, plan) + [Successor(Trace(s, plan)[|plan|], a)]
  {
    assert (plan + [a])[..|plan|] == plan;
  }

  /** Seen depends only on the first j states. */
  lemma SeenPrefix(t: seq<State>, u: seq<State>, j: nat)
    requires j <= |t| && j <= |u|
    requires forall i :: 0 <= i < j ==> t[i] == u[i]
    ensures Seen(t, j) == Seen(u, j)
  {
    forall x | x in Seen(t, j) ensures x in Seen(u, j) {
      var i :| 0 <= i < j && t[i] == x;
      assert u[i] == x;
    }
    forall x | x in Seen(u, j) ensures x in Seen(t, j) {
      var i :| 0 <= i < j && u[i] == x;
      assert t[i] == x;
    }
  }

  /** A step of the loop keeps the walk invariant. */
  lemma WalkInvariantStep(init: State, s: State, visited: set<State>, plan: seq<Action>, step: int, a: Action)
    requires WalkInvariant(init, s, visited, plan, step)
    ensures WalkInvariant(init, Successor(s, a), visited + {s}, plan + [a], step + 1)
  {
    var t := Trace(init, plan);
    var t' := Trace(init, plan + [a]);
    TraceSnoc(init, plan, a);
    SeenPrefix(t, t', |plan|);
    assert Seen(t', |plan| + 1) == Seen(t', |plan|) + {t'[|plan|]};
  }

  /** After appending a, step j of the longer plan is still one the filters offered. */
  lemma OfferedAfterStep(p: Problem, cfg: Config, goal: State, init: State, plan: seq<Action>, a: Action, j: int)
    requires FollowsPolicy(p, cfg, goal, init, plan)
    requires a in Filtered(cfg, Applicable(p.actions, Trace(init, plan)[|plan|]), Trace(init, plan)[|plan|],
                           Seen(Trace(init, plan), |plan|), goal)
    requires 0 <= j <= |plan|
    ensures (plan + [a])[j] in Filtered(cfg, Applicable(p.actions, Trace(init, plan + [a])[j]),
                                        Trace(init, plan + [a])[j], Seen(Trace(init, plan + [a]), j), goal)
  {
    var t := Trace(init, plan);
    var t' := Trace(init, plan + [a]);
    TraceSnoc(init, plan, a);
    SeenPrefix(t, t', j);
    assert t'[j] == t[j];
    if j < |plan| {
      assert (plan + [a])[j] == plan[j];
    }
  }

  /** Taking a step the filters offer keeps the plan policy-following. */
  lemma FollowsPolicyStep(p: Problem, cfg: Config, goal: State, init: State, plan: seq<Action>, a: Action)
    requires FollowsPolicy(p, cfg, goal, init, plan)
    requires a in Filtered(cfg, Applicable(p.actions, Trace(init, plan)[|plan|]), Trace(init, plan)[|plan|],
                           Seen(Trace(init, plan), |plan|), goal)
    ensures FollowsPolicy(p, cfg, goal, init, plan + [a])
  {
    forall j | 0 <= j < |plan + [a]|
      ensures (plan + [a])[j] in Filtered(cfg, Applicable(p.actions, Trace(init, plan + [a])[j]),
                                          Trace(init, plan + [a])[j], Seen(Trace(init, plan + [a]), j), goal)
    {
      OfferedAfterStep(p, cfg, goal, init, plan, a, j);
    }
  }

  /** Stepping from a state that misses the goal keeps the goal at the end only. */
  lemma GoalOnlyAtEndStep(init: State, goal: State, plan: seq<Action>, a: Action)
    requires GoalOnlyAtEnd(init, goal, plan)
    requires !Satisfies(Trace(init, plan)[|plan|], goal)
    ensures GoalOnlyAtEnd(init, goal, plan + [a])
  {
    TraceSnoc(init, plan, a);
  }

  /** The candidates are applicable catalogue actions, and there is one iff some action is applicable. */
  lemma FilteredLaws(p: Problem, cfg: Config, s: State, visited: set<State>, goal: State)
    ensures forall a :: a in Filtered(cfg, Applicable(p.actions, s), s, visited, goal) ==>
      a in p.actions && IsApplicable(a, s)
    ensures Filtered(cfg, Applicable(p.actions, s), s, visited, goal) == [] <==> Applicable(p.actions, s) == []
  {
    var applicable := Applicable(p.actions, s);
    ApplicableExactly(p.actions, s);
    FilterMembers(applicable, s, visited, goal);
    DeadlockFilterFallback(applicable, s, visited);
    var afterDeadlock := DeadlockStage(cfg, applicable, s, visited);
    FilterMembers(afterDeadlock, s, visited, goal);
    HelpfulFilterFallback(afterDeadlock, s, goal);
  }

  /**
   * A plan returned from the walk loop extends the plan so far, is shorter than
   * maxWalkLength, and used one draw per action it added.
   */
  lemma {:induction false} WalkFromExtends(p: Problem, cfg: Config, goal: State, pick: Chooser,
                                           s: State, visited: set<State>, plan: seq<Action>, step: int, k: nat)
    requires step == |plan|
    ensures var o := WalkFrom(p, cfg, goal, pick, s, visited, plan, step, k);
      o.plan.Some? ==>
        && plan <= o.plan.value
        && |o.plan.value| < cfg.maxWalkLength as int
        && o.draws == k + |o.plan.value| - |plan|
    decreases cfg.maxWalkLength as int - step
  {
    if step < cfg.maxWalkLength as int && !Satisfies(s, goal) {
      var applicable := Applicable(p.actions, s);
      var candidates := Filtered(cfg, applicable, s, visited, goal);
      if applicable != [] && candidates != [] {
        var a := candidates[pick(k, |candidates|) % |candidates|];
        assert WalkFrom(p, cfg, goal, pick, s, visited, plan, step, k)
            == WalkFrom(p, cfg, goal, pick, Successor(s, a), visited + {s}, plan + [a], step + 1, k + 1);
        WalkFromExtends(p, cfg, goal, pick, Successor(s, a), visited + {s}, plan + [a], step + 1, k + 1);
      }
    }
  }

  /**
   * A plan returned from a walk loop that keeps its invariant follows the
   * policy, reaches the goal at its end, and not before.
   */
  lemma {:induction false} WalkFromFollowsPolicy(p: Problem, cfg: Config, init: State, goal: State, pick: Chooser,
                                                 s: State, visited: set<State>, plan: seq<Action>, step: int, k: nat)
    requires WalkInvariant(init, s, visited, plan, step)
    requires FollowsPolicy(p, cfg, goal, init, plan)
    requires GoalOnlyAtEnd(init, goal, plan)
    ensures var o := WalkFrom(p, cfg, goal, pick, s, visited, plan, step, k);
      o.plan.Some? ==>
        && FollowsPolicy(p, cfg, goal, init, o.plan.value)
        && GoalOnlyAtEnd(init, goal, o.plan.value)
        && Satisfies(Trace(init, o.plan.value)[|o.plan.value|], goal)
    decreases cfg.maxWalkLength as int - step
  {
    if step < cfg.maxWalkLength as int && !Satisfies(s, goal) {
      var applicable := Applicable(p.actions, s);
      var candidates := Filtered(cfg, applicable, s, visited, goal);
      if applicable != [] && candidates != [] {
        var a := candidates[pick(k, |candidates|) % |candidates|];
        assert WalkFrom(p, cfg, goal, pick, s, visited, plan, step, k)
            == WalkFrom(p, cfg, goal, pick, Successor(s, a), visited + {s}, plan + [a], step + 1, k + 1);
        WalkInvariantStep(init, s, visited, plan, step, a);
        FollowsPolicyStep(p, cfg, goal, init, plan, a);
        GoalOnlyAtEndStep(init, goal, plan, a);
        WalkFromFollowsPolicy(p, cfg, init, goal, pick, Successor(s, a), visited + {s}, plan + [a], step + 1, k + 1);
      }
    }
  }

  /** A policy-following plan that ends in the goal is valid. */
  lemma PolicyPlanIsValid(p: Problem, cfg: Config, init: State, goal: State, plan: seq<Action>)
    requires FollowsPolicy(p, cfg, goal, init, plan)
    requires Satisfies(Trace(init, plan)[|plan|], goal)
    ensures ValidPlan(p, init, goal, plan)
  {
    var t := Trace(init, plan);
    forall j | 0 <= j < |plan|
      ensures plan[j] in p.actions && IsApplicable(plan[j], t[j])
    {
      FilteredLaws(p, cfg, t[j], Seen(t, j), goal);
    }
  }

  /**
   * A successful walk returns a valid plan shorter than maxWalkLength that
   * follows the policy, reaches the goal only at its end, and used one draw per
   * action.
   */
  lemma WalkSucceedsWithValidPlan(p: Problem, cfg: Config, init: State, goal: State, pick: Chooser, k: nat)
    ensures var o := Walk(p, cfg, init, goal, pick, k);
      o.plan.Some? ==>
        && ValidPlan(p, init, goal, o.plan.value)
        && |o.plan.value| < cfg.maxWalkLength as int
        && FollowsPolicy(p, cfg, goal, init, o.plan.value)
        && GoalOnlyAtEnd(init, goal, o.plan.value)
        && o.draws == k + |o.plan.value|
  {
    assert Seen(Trace(init, []), 0) == {};
    WalkFromExtends(p, cfg, goal, pick, init, {}, [], 0, k);
    WalkFromFollowsPolicy(p, cfg, init, goal, pick, init, {}, [], 0, k);
    var o := Walk(p, cfg, init, goal, pick, k);
    if o.plan.Some? {
      PolicyPlanIsValid(p, cfg, init, goal, o.plan.value);
    }
  }

  /**
   * With deadlock avoidance on, a step of a policy-following plan leads back to
   * a state left earlier only when every applicable action there does.
   */
  lemma RevisitOnlyWhenForced(p: Problem, cfg: Config, init: State, goal: State, plan: seq<Action>, j: int)
    requires cfg.useDeadlockAvoidance
    requires FollowsPolicy(p, cfg, goal, init, plan)
    requires 0 <= j < |plan|
    requires Successor(Trace(init, plan)[j], plan[j]) in Seen(Trace(init, plan), j)
    ensures forall b :: b in Applicable(p.actions, Trace(init, plan)[j]) ==>
      Successor(Trace(init, plan)[j], b) in Seen(Trace(init, plan), j)
  {
    var t := Trace(init, plan);
    var applicable := Applicable(p.actions, t[j]);
    var afterDeadlock := FilterDeadlock(applicable, t[j], Seen(t, j));
    FilterMembers(afterDeadlock, t[j], Seen(t, j), goal);
    assert plan[j] in afterDeadlock;
    forall b | b in applicable
      ensures Successor(t[j], b) in Seen(t, j)
    {
      if Successor(t[j], b) !in Seen(t, j) {
        DeadlockFilterKeepsUnvisited(applicable, t[j], Seen(t, j), b);
        assert false;
      }
    }
  }

  /**
   * With helpful actions on, a policy-following plan takes an unhelpful step
   * only when no candidate left by the deadlock stage is helpful.
   */
  lemma UnhelpfulOnlyWhenForced(p: Problem, cfg: Config, init: State, goal: State, plan: seq<Action>, j: int)
    requires cfg.useHelpfulActions
    requires FollowsPolicy(p, cfg, goal, init, plan)
    requires 0 <= j < |plan|
    requires !IsHelpful(plan[j], Trace(init, plan)[j], goal)
    ensures forall b :: b in DeadlockStage(cfg, Applicable(p.actions, Trace(init, plan)[j]), Trace(init, plan)[j],
                                            Seen(Trace(init, plan), j)) ==>
      !IsHelpful(b, Trace(init, plan)[j], goal)
  {
    var t := Trace(init, plan);
    var afterDeadlock := DeadlockStage(cfg, Applicable(p.actions, t[j]), t[j], Seen(t, j));
    assert plan[j] in FilterHelpful(afterDeadlock, t[j], goal);
    forall b | b in afterDeadlock
      ensures !IsHelpful(b, t[j], goal)
    {
      if IsHelpful(b, t[j], goal) {
        HelpfulFilterKeepsHelpful(afterDeadlock, t[j], goal, b);
        assert false;
      }
    }
  }

  /** A length cap of zero or less yields no plan, even when init satisfies the goal. */
  lemma NoStepsNoPlan(p: Problem, cfg: Config, init: State, goal: State, pick: Chooser, k: nat)
    requires cfg.maxWalkLength <= 0
    ensures Walk(p, cfg, init, goal, pick, k) == WalkOutcome(None, k)
  {
  }

  /**
   * A one-action catalogue whose action leads from init to the goal: the walk
   * finds the one-step plan when it may take two loop iterations, and loses it
   * when maxWalkLength is 1, because the goal is only tested at the loop head.
   */
  lemma SingleActionWalk(p: Problem, cfg: Config, init: State, goal: State, pick: Chooser, k: nat, a: Action)
    requires p.actions == [a] && IsApplicable(a, init)
    requires !Satisfies(init, goal) && Satisfies(Successor(init, a), goal)
    requires cfg.maxWalkLength >= 1
    ensures Walk(p, cfg, init, goal, pick, k).plan == if cfg.maxWalkLength >= 2 then Some([a]) else None
  {
    assert p.actions[..0] == [];
    assert Applicable(p.actions, init) == [a];
    FilteredLaws(p, cfg, init, {}, goal);
    var candidates := Filtered(cfg, [a], init, {}, goal);
    assert candidates == [a] by {
      assert forall b :: b in candidates ==> b == a;
      assert |candidates| <= 1 by {
        DeadlockFilterFallback([a], init, {});
        var afterDeadlock := DeadlockStage(cfg, [a], init, {});
        HelpfulFilterFallback(afterDeadlock, init, goal);
        assert |KeepOrAll([a], LeadsOutside(init, {}))| <= 1;
      }
    }
    assert [a][pick(k, 1) % 1] == a;
    assert Walk(p, cfg, init, goal, pick, k)
        == WalkFrom(p, cfg, goal, pick, Successor(init, a), {} + {init}, [] + [a], 1, k + 1);
  }

  /** The loop of `performRandomWalk`, with the random draws counted from k0. */
  method PerformRandomWalk(problem: Problem, cfg: Config, initialState: State, goalState: State,
                           pick: Chooser, k0: nat) returns (plan: Option<seq<Action>>, k: nat)
    ensures WalkOutcome(plan, k) == Walk(problem, cfg, initialState, goalState, pick, k0)
  {
    var currentState := initialState;
    var steps: seq<Action> := [];
    var visitedStates: set<State> := {};
    k := k0;
    var step := 0;
    assert Seen(Trace(initialState, []), 0) == {};
    while step < cfg.maxWalkLength as int
      invariant 0 <= step
      invariant WalkInvariant(initialState, currentState, visitedStates, steps, step)
      invariant WalkFrom(problem, cfg, goalState, pick, currentState, visitedStates, steps, step, k)
             == Walk(problem, cfg, initialState, goalState, pick, k0)
      decreases cfg.maxWalkLength as int - step
    {
      if Satisfies(currentState, goalState) {
        return Some(steps), k;
      }
      var applicableActions := GetApplicableActions(problem, currentState);
      if |applicableActions| == 0 {
        break;
      }
      if cfg.useDeadlockAvoidance {
        applicableActions := FilterDeadlockActions(applicableActions, currentState, visitedStates);
      }
      if cfg.useHelpfulActions {
        applicableActions := FilterHelpfulActions(applicableActions, currentState, goalState);
      }
      if |applicableActions| == 0 {
        break;
      }
      var selectedAction := applicableActions[pick(k, |applicableActions|) % |applicableActions|];
      k := k + 1;
      WalkInvariantStep(initialState, currentState, visitedStates, steps, step, selectedAction);
      visitedStates := visitedStates + {currentState};
      currentState := ApplyAction(currentState, selectedAction);
      // plan.add(step, selectedAction): insertion at index step, which the invariant makes the end
      ghost var before := steps;
      steps := steps[..step] + [selectedAction] + steps[step..];
      assert steps == before + [selectedAction];
      step := step + 1;
    }
    return None, k;
  }
}
