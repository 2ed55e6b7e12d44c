/**
 * The planning vocabulary the random-walk planner consumes: ground facts,
 * states, conditions, actions with conditional effects, problems, and the
 * planner's configuration. PDDL4J's own encodings (bit vectors, fluent tables)
 * are replaced by sets of fact indices with structural equality.
 */
module Planning {

  /** Java's `null` for a plan that was not found. */
  datatype Option<T> = None | Some(value: T)

  /** A ground fluent, identified by its index in the problem's fluent table. */
  type Fact = nat

  /** The facts true at one point of the search. Two states are equal iff they hold the same facts. */
  type State = set<Fact>

  /** A conjunction of positive and negative fact literals. */
  datatype Condition = Condition(positive: set<Fact>, negative: set<Fact>)

  /** What an effect adds (positive facts) and deletes (negative facts). */
  datatype Effect = Effect(positive: set<Fact>, negative: set<Fact>)

  /** An effect guarded by a condition on the state the action is applied in. */
  datatype ConditionalEffect = ConditionalEffect(condition: Condition, effect: Effect)

  /** A ground operator: a precondition and an ordered list of conditional effects. */
  datatype Action = Action(name: string, precondition: Condition, effects: seq<ConditionalEffect>)

  /** The PDDL requirement keys a problem may declare. */
  datatype RequireKey =
    | Strips | Typing | NegativePreconditions | DisjunctivePreconditions | Equality
    | ExistentialPreconditions | UniversalPreconditions | ConditionalEffects
    | NumericFluents | DurativeActions | DerivedPredicates

  /** A ground planning problem: initial state, goal, action catalogue, declared requirements. */
  datatype Problem = Problem(initialState: State, goal: Condition, actions: seq<Action>, requirements: set<RequireKey>)

  /** Java's 32-bit `int`, the type of the planner's numeric options. */
  newtype int32 = x: int | -0x8000_0000 <= x < 0x8000_0000

  /** `Integer.MAX_VALUE`, the initial value of the best plan length. */
  const IntMax: int := 0x7fff_ffff

  /** The planner's options: walk budget, walk length cap and the two filter switches. */
  datatype Config = Config(numberOfWalks: int32, maxWalkLength: int32, useDeadlockAvoidance: bool, useHelpfulActions: bool)

  /** A condition holds in a state when all its positive facts are in it and none of its negative ones. */
  predicate Holds(c: Condition, s: State)
  {
    c.positive <= s && c.negative !! s
  }

  /** An action is applicable exactly where its precondition holds. */
  predicate IsApplicable(a: Action, s: State)
  {
    Holds(a.precondition, s)
  }

  /** Applying an effect to a state: its deletions first, then its additions. */
  function ApplyEffect(s: State, e: Effect): State
  {
    (s - e.negative) + e.positive
  }

  /** The goal turned into a state: the positive facts of the goal condition. */
  function GoalState(p: Problem): State
  {
    p.goal.positive
  }

  /** A state satisfies a goal state when it contains all of the goal's facts. */
  predicate Satisfies(s: State, goal: State)
  {
    goal <= s
  }

  /**
   * The planner accepts a problem that declares no requirement or that lists
   * STRIPS among its requirements (whatever else it lists beside it).
   */
  function IsSupported(p: Problem): (supported: bool)
    ensures Strips in p.requirements ==> supported
    ensures Strips !in p.requirements ==> (supported <==> p.requirements == {})
  {
    p.requirements == {} || Strips in p.requirements
  }

  /** Declaring STRIPS next to a requirement the planner does not handle still passes the check. */
  lemma StripsWithExtensionsIsSupported(p: Problem)
    requires p.requirements == {Strips, NumericFluents}
    ensures IsSupported(p)
  {
  }
}
