/**
 * The outer loop (`performMCTS`) and the entry point (`solve`): run up to
 * numberOfWalks walks one after the other, keep a plan strictly shorter than
 * the best so far, and stop as soon as the best length is at most 10.
 */
module Scheduler {
  import opened Planning
  import opened ActionApplication
  import opened ActionFilters
  import opened RandomWalk

  /** A best plan length at or below this stops the search. */
  const EarlyStopLength: int := 10

  /** The plans (or None) of consecutive walks, and the draws made once they are done. */
  datatype WalkBatch = WalkBatch(results: seq<Option<seq<Action>>>, draws: nat)

  /** The first n walks from init, walk i + 1 drawing where walk i stopped; the first starts with k draws made. */
  function Walks(p: Problem, cfg: Config, init: State, goal: State, pick: Chooser, k: nat, n: nat): (b: WalkBatch)
    ensures |b.results| == n
  {
    if n == 0 then WalkBatch([], k)
    else
      var before := Walks(p, cfg, init, goal, pick, k, n - 1);
      var o := Walk(p, cfg, init, goal, pick, before.draws);
      WalkBatch(before.results + [o.plan], o.draws)
  }

  /** The best plan kept over a list of walk results: a later one replaces it only when strictly shorter. */
  function Shortest(rs: seq<Option<seq<Action>>>): Option<seq<Action>>
  {
    if rs == [] then None
    else
      var best := Shortest(rs[..|rs| - 1]);
      var last := rs[|rs| - 1];
      if last.Some? && (best.None? || |last.value| < |best.value|) then last else best
  }

  /** `bestPlanLength` after the walks rs: the length of the best plan, `Integer.MAX_VALUE` when there is none. */
  function BestLength(rs: seq<Option<seq<Action>>>): int
  {
    match Shortest(rs)
    case None => IntMax
    case Some(plan) => |plan|
  }

  /** r is None when no walk of rs succeeded, and otherwise the first plan of minimum length among them. */
  ghost predicate IsFirstShortest(rs: seq<Option<seq<Action>>>, r: Option<seq<Action>>)
  {
    if r.None? then forall j :: 0 <= j < |rs| ==> rs[j].None?
    else
      exists i :: 0 <= i < |rs| && rs[i] == r
        && (forall j :: 0 <= j < |rs| && rs[j].Some? ==> |r.value| <= |rs[j].value|)
        && (forall j :: 0 <= j < i && rs[j].Some? ==> |r.value| < |rs[j].value|)
  }

  /** A walk result that triggers the early stop on its own. */
  predicate ShortEnough(r: Option<seq<Action>>)
  {
    r.Some? && |r.value| <= EarlyStopLength
  }

  /** The number of walks the loop header allows: numberOfWalks, or none when it is negative. */
  function Budget(cfg: Config): nat
  {
    if cfg.numberOfWalks < 0 then 0 else cfg.numberOfWalks as nat
  }

  /** The test of `performMCTS`: a walk result replaces the best plan when it is a strictly shorter plan. */
  predicate Improves(r: Option<seq<Action>>, bestLength: int)
  {
    r.Some? && |r.value| < bestLength
  }

  /** The loop of `performMCTS` from walk number `walk` on, with k draws made and the best plan so far. */
  function SearchFrom(p: Problem, cfg: Config, init: State, goal: State, pick: Chooser,
                      walk: int, k: nat, best: Option<seq<Action>>, bestLength: int): Option<seq<Action>>
    decreases cfg.numberOfWalks as int - walk
  {
    if walk >= cfg.numberOfWalks as int then best
    else
      var o := Walk(p, cfg, init, goal, pick, k);
      var improved := Improves(o.plan, bestLength);
      var best' := if improved then o.plan else best;
      var bestLength' := if improved then |o.plan.value| else bestLength;
      if bestLength' <= EarlyStopLength then best'
      else SearchFrom(p, cfg, init, goal, pick, walk + 1, o.draws, best', bestLength')
  }

  /** The whole search, starting with no plan and `bestPlanLength = Integer.MAX_VALUE`. */
  function Search(p: Problem, cfg: Config, init: State, goal: State, pick: Chooser, k: nat): Option<seq<Action>>
  {
    SearchFrom(p, cfg, init, goal, pick, 0, k, None, IntMax)
  }

  /**
   * The same loop over walk results given in advance: from index i on, with
   * the best plan so far and its length.
   */
  function Scan(rs: seq<Option<seq<Action>>>, i: nat, best: Option<seq<Action>>, bestLength: int): Option<seq<Action>>
    decreases |rs| - i
  {
    if i >= |rs| then best
    else
      var improved := Improves(rs[i], bestLength);
      var best' := if improved then rs[i] else best;
      var bestLength' := if improved then |rs[i].value| else bestLength;
      if bestLength' <= EarlyStopLength then best'
      else Scan(rs, i + 1, best', bestLength')
  }

  /** Keeping only strictly shorter plans selects the first shortest one. */
  lemma {:induction false} ShortestIsFirstShortest(rs: seq<Option<seq<Action>>>)
    ensures IsFirstShortest(rs, Shortest(rs))
  {
    if rs != [] {
      var n := |rs| - 1;
      var front := rs[..n];
      ShortestIsFirstShortest(front);
      var best := Shortest(front);
      var last := rs[n];
      if last.Some? && (best.None? || |last.value| < |best.value|) {
        forall j | 0 <= j < |rs| && rs[j].Some?
          ensures |last.value| <= |rs[j].value|
        {
          if j < n {
            assert front[j] == rs[j];
          }
        }
        forall j | 0 <= j < n && rs[j].Some?
          ensures |last.value| < |rs[j].value|
        {
          assert front[j] == rs[j];
        }
        assert rs[n] == Shortest(rs);
      } else if best.None? {
        forall j | 0 <= j < |rs|
          ensures rs[j].None?
        {
          if j < n {
            assert front[j] == rs[j];
          }
        }
      } else {
        var i :| 0 <= i < |front| && front[i] == best
          && (forall j :: 0 <= j < |front| && front[j].Some? ==> |best.value| <= |front[j].value|)
          && (forall j :: 0 <= j < i && front[j].Some? ==> |best.value| < |front[j].value|);
        assert rs[i] == best;
        forall j | 0 <= j < |rs| && rs[j].Some?
          ensures |best.value| <= |rs[j].value|
        {
          if j < n {
            assert front[j] == rs[j];
          }
        }
        forall j | 0 <= j < i && rs[j].Some?
          ensures |best.value| < |rs[j].value|
        {
          assert front[j] == rs[j];
        }
      }
    }
  }

  /**
   * One more walk result: it replaces the best plan exactly when it is a plan
   * strictly shorter than `bestPlanLength` (the comparison `performMCTS` makes).
   */
  lemma ShortestSnoc(rs: seq<Option<seq<Action>>>, r: Option<seq<Action>>)
    requires r.Some? ==> |r.value| < IntMax
    ensures Shortest(rs + [r]) == (if Improves(r, BestLength(rs)) then r else Shortest(rs))
    ensures BestLength(rs + [r]) == (if Improves(r, BestLength(rs)) then |r.value| else BestLength(rs))
  {
    assert (rs + [r])[..|rs|] == rs;
  }

  /** `bestPlanLength` never increases as more walks are taken into account. */
  lemma {:induction false} BestLengthNonIncreasing(rs: seq<Option<seq<Action>>>, i: nat, j: nat)
    requires forall k :: 0 <= k < |rs| && rs[k].Some? ==> |rs[k].value| < IntMax
    requires i <= j <= |rs|
    ensures BestLength(rs[..j]) <= BestLength(rs[..i])
    decreases j - i
  {
    if i < j {
      BestLengthNonIncreasing(rs, i, j - 1);
      assert rs[..j] == rs[..j - 1] + [rs[j - 1]];
      ShortestSnoc(rs[..j - 1], rs[j - 1]);
    }
  }

  /** Every plan among the walk results is valid and shorter than maxWalkLength. */
  lemma {:induction false} WalksAreValid(p: Problem, cfg: Config, init: State, goal: State, pick: Chooser, k: nat, n: nat)
    ensures forall j :: 0 <= j < n && Walks(p, cfg, init, goal, pick, k, n).results[j].Some? ==>
      && ValidPlan(p, init, goal, Walks(p, cfg, init, goal, pick, k, n).results[j].value)
      && |Walks(p, cfg, init, goal, pick, k, n).results[j].value| < cfg.maxWalkLength as int
  {
    if n > 0 {
      WalksAreValid(p, cfg, init, goal, pick, k, n - 1);
      var before := Walks(p, cfg, init, goal, pick, k, n - 1);
      WalkSucceedsWithValidPlan(p, cfg, init, goal, pick, before.draws);
    }
  }

  /** While no walk found a plan of length EarlyStopLength or less, the best length stays above it. */
  lemma NoShortWalkNoStop(rs: seq<Option<seq<Action>>>)
    requires forall j :: 0 <= j < |rs| ==> !ShortEnough(rs[j])
    ensures BestLength(rs) > EarlyStopLength
  {
    ShortestIsFirstShortest(rs);
  }

  /** The first i walk results of a longer batch are the batch of i walks. */
  lemma {:induction false} WalksPrefix(p: Problem, cfg: Config, init: State, goal: State, pick: Chooser, k: nat, i: nat, n: nat)
    requires i <= n
    ensures Walks(p, cfg, init, goal, pick, k, n).results[..i] == Walks(p, cfg, init, goal, pick, k, i).results
    decreases n - i
  {
    if i < n {
      WalksPrefix(p, cfg, init, goal, pick, k, i, n - 1);
      assert Walks(p, cfg, init, goal, pick, k, n).results[..n - 1] == Walks(p, cfg, init, goal, pick, k, n - 1).results;
    }
  }

  /** Result i of a batch is the walk that starts where the first i walks stopped. */
  lemma WalksEntry(p: Problem, cfg: Config, init: State, goal: State, pick: Chooser, k: nat, i: nat, n: nat)
    requires i < n
    ensures Walks(p, cfg, init, goal, pick, k, n).results[i]
         == Walk(p, cfg, init, goal, pick, Walks(p, cfg, init, goal, pick, k, i).draws).plan
  {
    WalksPrefix(p, cfg, init, goal, pick, k, i + 1, n);
    assert Walks(p, cfg, init, goal, pick, k, n).results[i] == Walks(p, cfg, init, goal, pick, k, n).results[..i + 1][i];
  }

  /**
   * Running the walks on demand, each starting where the previous one stopped,
   * gives the same result as scanning the budget's batch of walks.
   */
  lemma {:induction false} SearchFromScans(p: Problem, cfg: Config, init: State, goal: State, pick: Chooser, k: nat,
                                           walk: nat, best: Option<seq<Action>>, bestLength: int)
    requires walk <= Budget(cfg)
    ensures SearchFrom(p, cfg, init, goal, pick, walk, Walks(p, cfg, init, goal, pick, k, walk).draws, best, bestLength)
         == Scan(Walks(p, cfg, init, goal, pick, k, Budget(cfg)).results, walk, best, bestLength)
    decreases Budget(cfg) - walk
  {
    if walk < Budget(cfg) {
      var rs := Walks(p, cfg, init, goal, pick, k, Budget(cfg)).results;
      var draws := Walks(p, cfg, init, goal, pick, k, walk).draws;
      WalksEntry(p, cfg, init, goal, pick, k, walk, Budget(cfg));
      var o := Walk(p, cfg, init, goal, pick, draws);
      assert rs[walk] == o.plan;
      assert Walks(p, cfg, init, goal, pick, k, walk + 1).draws == o.draws;
      var improved := Improves(o.plan, bestLength);
      var best' := if improved then o.plan else best;
      var bestLength' := if improved then |o.plan.value| else bestLength;
      SearchFromScans(p, cfg, init, goal, pick, k, walk + 1, best', bestLength');
    }
  }

  /**
   * The scan from index i on picks the first shortest plan of the results up
   * to the one that stops it: no earlier result is short enough, and it stops
   * before the end only right after one that is.
   */
  lemma {:induction false} ScanRuns(rs: seq<Option<seq<Action>>>, i: nat) returns (m: nat)
    requires i <= |rs|
    requires forall j :: 0 <= j < |rs| && rs[j].Some? ==> |rs[j].value| < IntMax
    requires forall j :: 0 <= j < i ==> !ShortEnough(rs[j])
    ensures i <= m <= |rs|
    ensures Scan(rs, i, Shortest(rs[..i]), BestLength(rs[..i])) == Shortest(rs[..m])
    ensures forall j :: 0 <= j < m - 1 ==> !ShortEnough(rs[j])
    ensures m < |rs| ==> 0 < m && ShortEnough(rs[m - 1])
    decreases |rs| - i
  {
    if i < |rs| {
      assert rs[..i + 1] == rs[..i] + [rs[i]];
      ShortestSnoc(rs[..i], rs[i]);
      forall j | 0 <= j < |rs[..i]|
        ensures !ShortEnough(rs[..i][j])
      {
        assert rs[..i][j] == rs[j];
      }
      NoShortWalkNoStop(rs[..i]);
      if ShortEnough(rs[i]) {
        m := i + 1;
      } else {
        m := ScanRuns(rs, i + 1);
      }
    } else {
      m := i;
    }
  }

  /**
   * The search runs exactly m walks: at most numberOfWalks (none when it is
   * zero or less), no walk before the last one run found a plan of length 10
   * or less, and it stops before the budget only right after one that did.
   */
  ghost predicate RunsWalks(p: Problem, cfg: Config, init: State, goal: State, pick: Chooser, k: nat, m: nat)
  {
    var rs := Walks(p, cfg, init, goal, pick, k, m).results;
    && m <= Budget(cfg)
    && (forall j :: 0 <= j < m - 1 ==> !ShortEnough(rs[j]))
    && (m < Budget(cfg) ==> 0 < m && ShortEnough(rs[m - 1]))
  }

  /** Two batches from the same draws agree on the walks they share. */
  lemma WalksAgree(p: Problem, cfg: Config, init: State, goal: State, pick: Chooser, k: nat, i: nat, m: nat, n: nat)
    requires i < m <= n
    ensures Walks(p, cfg, init, goal, pick, k, n).results[i] == Walks(p, cfg, init, goal, pick, k, m).results[i]
  {
    WalksPrefix(p, cfg, init, goal, pick, k, m, n);
    assert Walks(p, cfg, init, goal, pick, k, n).results[i] == Walks(p, cfg, init, goal, pick, k, n).results[..m][i];
  }

  /** RunsWalks fixes the number of walks: at most one m satisfies it. */
  lemma RunsWalksUnique(p: Problem, cfg: Config, init: State, goal: State, pick: Chooser, k: nat, m1: nat, m2: nat)
    requires RunsWalks(p, cfg, init, goal, pick, k, m1)
    requires RunsWalks(p, cfg, init, goal, pick, k, m2)
    ensures m1 == m2
  {
    if m1 < m2 {
      WalksAgree(p, cfg, init, goal, pick, k, m1 - 1, m1, m2);
    } else if m2 < m1 {
      WalksAgree(p, cfg, init, goal, pick, k, m2 - 1, m2, m1);
    }
  }

  /**
   * The search runs m walks, in the sense of RunsWalks, and returns the first
   * shortest plan among them (None when none succeeded).
   */
  lemma SearchCharacterization(p: Problem, cfg: Config, init: State, goal: State, pick: Chooser, k: nat)
    returns (m: nat)
    ensures RunsWalks(p, cfg, init, goal, pick, k, m)
    ensures IsFirstShortest(Walks(p, cfg, init, goal, pick, k, m).results, Search(p, cfg, init, goal, pick, k))
  {
    var rs := Walks(p, cfg, init, goal, pick, k, Budget(cfg)).results;
    SearchFromScans(p, cfg, init, goal, pick, k, 0, None, IntMax);
    WalksAreValid(p, cfg, init, goal, pick, k, Budget(cfg));
    assert rs[..0] == [];
    m := ScanRuns(rs, 0);
    WalksPrefix(p, cfg, init, goal, pick, k, m, Budget(cfg));
    ShortestIsFirstShortest(rs[..m]);
  }

  /** A plan the search returns is valid and shorter than maxWalkLength. */
  lemma SearchPlanIsValid(p: Problem, cfg: Config, init: State, goal: State, pick: Chooser, k: nat)
    ensures var r := Search(p, cfg, init, goal, pick, k);
      r.Some? ==> ValidPlan(p, init, goal, r.value) && |r.value| < cfg.maxWalkLength as int
  {
    var m := SearchCharacterization(p, cfg, init, goal, pick, k);
    WalksAreValid(p, cfg, init, goal, pick, k, m);
  }

  /**
   * With an initial state that satisfies the goal, the first walk returns the
   * empty plan, the search stops after that one walk and returns it.
   */
  lemma GoalAtStartGivesEmptyPlan(p: Problem, cfg: Config, init: State, goal: State, pick: Chooser, k: nat)
    returns (m: nat)
    requires Satisfies(init, goal)
    requires cfg.numberOfWalks >= 1 && cfg.maxWalkLength >= 1
    ensures RunsWalks(p, cfg, init, goal, pick, k, m) && m == 1
    ensures Search(p, cfg, init, goal, pick, k) == Some([])
  {
    assert Walk(p, cfg, init, goal, pick, k) == WalkOutcome(Some([]), k);
    assert Walks(p, cfg, init, goal, pick, k, 1).results == [Some([])];
    assert RunsWalks(p, cfg, init, goal, pick, k, 1);
    m := 1;
  }

  /**
   * A one-action catalogue whose action leads from init to the goal: with room
   * for two loop iterations, the first walk finds the one-step plan and the
   * search stops there.
   */
  lemma SingleActionSearch(p: Problem, cfg: Config, init: State, goal: State, pick: Chooser, k: nat, a: Action)
    requires p.actions == [a] && IsApplicable(a, init)
    requires !Satisfies(init, goal) && Satisfies(Successor(init, a), goal)
    requires cfg.numberOfWalks >= 1 && cfg.maxWalkLength >= 2
    ensures Search(p, cfg, init, goal, pick, k) == Some([a])
  {
    SingleActionWalk(p, cfg, init, goal, pick, k, a);
  }

  /** A walk from a state with no applicable action that misses the goal fails. */
  lemma StuckWalkFails(p: Problem, cfg: Config, init: State, goal: State, pick: Chooser, k: nat)
    requires Applicable(p.actions, init) == [] && !Satisfies(init, goal)
    ensures Walk(p, cfg, init, goal, pick, k).plan == None
  {
  }

  /** Every walk from such a state fails, whatever the draws. */
  lemma {:induction false} StuckWalksFail(p: Problem, cfg: Config, init: State, goal: State, pick: Chooser, k: nat, n: nat)
    requires Applicable(p.actions, init) == [] && !Satisfies(init, goal)
    ensures forall j :: 0 <= j < n ==> Walks(p, cfg, init, goal, pick, k, n).results[j] == None
  {
    if n > 0 {
      StuckWalksFail(p, cfg, init, goal, pick, k, n - 1);
      StuckWalkFails(p, cfg, init, goal, pick, Walks(p, cfg, init, goal, pick, k, n - 1).draws);
    }
  }

  /**
   * No applicable action in an initial state that misses the goal: every walk
   * fails, the search runs the whole budget of walks, and returns no plan.
   */
  lemma StuckProblemHasNoPlan(p: Problem, cfg: Config, init: State, goal: State, pick: Chooser, k: nat)
    returns (m: nat)
    requires Applicable(p.actions, init) == [] && !Satisfies(init, goal)
    ensures RunsWalks(p, cfg, init, goal, pick, k, m) && m == Budget(cfg)
    ensures Search(p, cfg, init, goal, pick, k) == None
  {
    m := SearchCharacterization(p, cfg, init, goal, pick, k);
    StuckWalksFail(p, cfg, init, goal, pick, k, m);
  }

  /** The loop of `performMCTS`, with the random draws counted from k0. */
  method PerformMCTS(problem: Problem, cfg: Config, initialState: State, goalState: State,
                     pick: Chooser, k0: nat) returns (bestPlan: Option<seq<Action>>)
    ensures bestPlan == Search(problem, cfg, initialState, goalState, pick, k0)
  {
    bestPlan := None;
    var bestPlanLength := IntMax;
    var k := k0;
    ghost var lengths := [bestPlanLength];
    var walk := 0;
    while walk < cfg.numberOfWalks as int
      invariant 0 <= walk
      invariant SearchFrom(problem, cfg, initialState, goalState, pick, walk, k, bestPlan, bestPlanLength)
             == Search(problem, cfg, initialState, goalState, pick, k0)
      invariant |lengths| == walk + 1 && lengths[walk] == bestPlanLength
      invariant forall i, j :: 0 <= i <= j <= walk ==> lengths[j] <= lengths[i]
      decreases cfg.numberOfWalks as int - walk
    {
      var walkPlan, k' := PerformRandomWalk(problem, cfg, initialState, goalState, pick, k);
      k := k';
      if walkPlan.Some? && |walkPlan.value| < bestPlanLength {
        bestPlan := walkPlan;
        bestPlanLength := |walkPlan.value|;
      }
      if bestPlanLength <= EarlyStopLength {
        break;
      }
      lengths := lengths + [bestPlanLength];
      walk := walk + 1;
    }
    return bestPlan;
  }

  /**
   * `solve`: search from the problem's initial state towards its goal turned
   * into a state. A plan it returns is valid.
   */
  method Solve(problem: Problem, cfg: Config, pick: Chooser, k0: nat) returns (plan: Option<seq<Action>>)
    ensures plan == Search(problem, cfg, problem.initialState, GoalState(problem), pick, k0)
    ensures plan.Some? ==> ValidPlan(problem, problem.initialState, GoalState(problem), plan.value)
  {
    var initialState := problem.initialState;
    var goalState := GoalState(problem);
    plan := PerformMCTS(problem, cfg, initialState, goalState, pick, k0);
    SearchPlanIsValid(problem, cfg, initialState, goalState, pick, k0);
  }
}
