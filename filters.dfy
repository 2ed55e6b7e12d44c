/**
 * The action lists a walk chooses from: the applicable actions of the
 * catalogue, then the two optional filters (deadlock avoidance, helpful
 * actions). Each filter falls back to its input when it would keep nothing.
 */
module ActionFilters {
  import opened Planning
  import opened ActionApplication
  import opened Sublists

  /** The test behind `getApplicableActions`. */
  function ApplicableIn(s: State): Action -> bool
  {
    a => IsApplicable(a, s)
  }

  /** The catalogue actions applicable in s, in catalogue order. */
  function Applicable(actions: seq<Action>, s: State): seq<Action>
  {
    Keep(actions, ApplicableIn(s))
  }

  /** The loop of `getApplicableActions`. */
  method GetApplicableActions(problem: Problem, state: State) returns (applicable: seq<Action>)
    ensures applicable == Applicable(problem.actions, state)
  {
    applicable := [];
    for i := 0 to |problem.actions|
      invariant applicable == Keep(problem.actions[..i], ApplicableIn(state))
    {
      var action := problem.actions[i];
      assert problem.actions[..i + 1][..i] == problem.actions[..i];
      if IsApplicable(action, state) {
        applicable := applicable + [action];
      }
    }
    assert problem.actions[..|problem.actions|] == problem.actions;
  }

  /** The applicable actions are exactly the catalogue actions whose precondition holds, in catalogue order. */
  lemma ApplicableExactly(actions: seq<Action>, s: State)
    ensures SelectsExactly(Applicable(actions, s), actions, set i: nat | i < |actions| && IsApplicable(actions[i], s))
    ensures forall a :: a in Applicable(actions, s) <==> a in actions && IsApplicable(a, s)
  {
    KeepSelectsExactly(actions, ApplicableIn(s));
    KeepMembers(actions, ApplicableIn(s));
    assert Positions(actions, ApplicableIn(s)) == set i: nat | i < |actions| && IsApplicable(actions[i], s);
  }

  /** The test of the deadlock filter: the action does not lead back to a visited state. */
  function LeadsOutside(s: State, visited: set<State>): Action -> bool
  {
    a => Successor(s, a) !in visited
  }

  /** `filterDeadlockActions`: the actions leading outside visited, or all of them when there are none. */
  function FilterDeadlock(actions: seq<Action>, s: State, visited: set<State>): seq<Action>
  {
    KeepOrAll(actions, LeadsOutside(s, visited))
  }

  /** The loop of `filterDeadlockActions`, applying each action to a copy of the state. */
  method FilterDeadlockActions(actions: seq<Action>, currentState: State, visitedStates: set<State>)
    returns (filtered: seq<Action>)
    ensures filtered == FilterDeadlock(actions, currentState, visitedStates)
  {
    var kept: seq<Action> := [];
    for i := 0 to |actions|
      invariant kept == Keep(actions[..i], LeadsOutside(currentState, visitedStates))
    {
      var action := actions[i];
      assert actions[..i + 1][..i] == actions[..i];
      var nextState := ApplyAction(currentState, action);
      if nextState !in visitedStates {
        kept := kept + [action];
      }
    }
    assert actions[..|actions|] == actions;
    filtered := if |kept| == 0 then actions else kept;
  }

  /**
   * The deadlock filter keeps an order-preserving sublist, is empty only on
   * empty input, and is the identity when every action leads back to a
   * visited state.
   */
  lemma DeadlockFilterFallback(actions: seq<Action>, s: State, visited: set<State>)
    ensures IsSublist(FilterDeadlock(actions, s, visited), actions)
    ensures FilterDeadlock(actions, s, visited) == [] <==> actions == []
    ensures (forall a :: a in actions ==> Successor(s, a) in visited) ==> FilterDeadlock(actions, s, visited) == actions
  {
    FallbackLaws(actions, LeadsOutside(s, visited));
  }

  /**
   * When some action leads outside visited, the deadlock filter keeps exactly
   * those actions, in their order.
   */
  lemma DeadlockFilterKeepsUnvisited(actions: seq<Action>, s: State, visited: set<State>, b: Action)
    requires b in actions && Successor(s, b) !in visited
    ensures SelectsExactly(FilterDeadlock(actions, s, visited), actions, Positions(actions, LeadsOutside(s, visited)))
    ensures forall a :: a in FilterDeadlock(actions, s, visited) <==> a in actions && Successor(s, a) !in visited
  {
    var p := LeadsOutside(s, visited);
    assert p(b);
    FallbackLaws(actions, p);
    forall a
      ensures a in FilterDeadlock(actions, s, visited) <==> a in actions && Successor(s, a) !in visited
    {
      assert p(a) == (Successor(s, a) !in visited);
    }
  }

  /**
   * `isHelpfulAction`: some effect's guard holds in s and all the facts that
   * effect adds are goal facts.
   */
  predicate IsHelpful(a: Action, s: State, goal: State)
  {
    exists i :: 0 <= i < |a.effects| && Holds(a.effects[i].condition, s) && a.effects[i].effect.positive <= goal
  }

  /** The loop of `isHelpfulAction`, returning at the first helpful effect. */
  method IsHelpfulAction(action: Action, currentState: State, goalState: State) returns (helpful: bool)
    ensures helpful <==> exists i :: 0 <= i < |action.effects| && Holds(action.effects[i].condition, currentState)
                                     && action.effects[i].effect.positive <= goalState
  {
    for i := 0 to |action.effects|
      invariant forall j :: 0 <= j < i ==>
        !(Holds(action.effects[j].condition, currentState) && action.effects[j].effect.positive <= goalState)
    {
      var effect := action.effects[i];
      if Holds(effect.condition, currentState) {
        if effect.effect.positive <= goalState {
          return true;
        }
      }
    }
    return false;
  }

  /** The test of the helpful-action filter. */
  function HelpfulIn(s: State, goal: State): Action -> bool
  {
    a => IsHelpful(a, s, goal)
  }

  /** `filterHelpfulActions`: the helpful actions, or all of them when none is helpful. */
  function FilterHelpful(actions: seq<Action>, s: State, goal: State): seq<Action>
  {
    KeepOrAll(actions, HelpfulIn(s, goal))
  }

  /** The loop of `filterHelpfulActions`. */
  method FilterHelpfulActions(actions: seq<Action>, currentState: State, goalState: State)
    returns (filtered: seq<Action>)
    ensures filtered == FilterHelpful(actions, currentState, goalState)
  {
    var kept: seq<Action> := [];
    for i := 0 to |actions|
      invariant kept == Keep(actions[..i], HelpfulIn(currentState, goalState))
    {
      var action := actions[i];
      assert actions[..i + 1][..i] == actions[..i];
      var helpful := IsHelpfulAction(action, currentState, goalState);
      if helpful {
        kept := kept + [action];
      }
    }
    assert actions[..|actions|] == actions;
    filtered := if |kept| == 0 then actions else kept;
  }

  /**
   * The helpful-action filter keeps an order-preserving sublist, is empty only
   * on empty input, and is the identity when no action is helpful.
   */
  lemma HelpfulFilterFallback(actions: seq<Action>, s: State, goal: State)
    ensures IsSublist(FilterHelpful(actions, s, goal), actions)
    ensures FilterHelpful(actions, s, goal) == [] <==> actions == []
    ensures (forall a :: a in actions ==> !IsHelpful(a, s, goal)) ==> FilterHelpful(actions, s, goal) == actions
  {
    FallbackLaws(actions, HelpfulIn(s, goal));
  }

  /** When some action is helpful, the filter keeps exactly the helpful actions, in their order. */
  lemma HelpfulFilterKeepsHelpful(actions: seq<Action>, s: State, goal: State, b: Action)
    requires b in actions && IsHelpful(b, s, goal)
    ensures SelectsExactly(FilterHelpful(actions, s, goal), actions, Positions(actions, HelpfulIn(s, goal)))
    ensures forall a :: a in FilterHelpful(actions, s, goal) <==> a in actions && IsHelpful(a, s, goal)
  {
    var p := HelpfulIn(s, goal);
    assert p(b);
    FallbackLaws(actions, p);
  }

  /** Every action a filter returns is one of its input actions. */
  lemma FilterMembers(actions: seq<Action>, s: State, visited: set<State>, goal: State)
    ensures forall a :: a in FilterDeadlock(actions, s, visited) ==> a in actions
    ensures forall a :: a in FilterHelpful(actions, s, goal) ==> a in actions
  {
    KeepMembers(actions, LeadsOutside(s, visited));
    KeepMembers(actions, HelpfulIn(s, goal));
  }
}
