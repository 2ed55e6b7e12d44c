/**
 * The successor function of the planner (`applyAction`): a copy of the state
 * receives, in list order, every conditional effect whose guard holds in the
 * state the action is applied in. Guards never see the partially updated copy.
 */
module ActionApplication {
  import opened Planning

  /** Effect i of effs fires when its guard holds in the pre-state. */
  predicate Fires(pre: State, effs: seq<ConditionalEffect>, i: int)
  {
    0 <= i < |effs| && Holds(effs[i].condition, pre)
  }

  /** Applies to acc, in list order, every effect of effs whose guard holds in pre. */
  function ApplyFiring(pre: State, acc: State, effs: seq<ConditionalEffect>): State
  {
    if effs == [] then acc
    else
      var before := ApplyFiring(pre, acc, effs[..|effs| - 1]);
      var last := effs[|effs| - 1];
      if Holds(last.condition, pre) then ApplyEffect(before, last.effect) else before
  }

  /** The state reached by applying action a in state s. */
  function Successor(s: State, a: Action): State
  {
    ApplyFiring(s, s, a.effects)
  }

  /** The loop of `applyAction`: copy the state, then apply each firing effect to the copy. */
  method ApplyAction(state: State, action: Action) returns (next: State)
    ensures next == Successor(state, action)
  {
    next := state;
    for i := 0 to |action.effects|
      invariant next == ApplyFiring(state, state, action.effects[..i])
    {
      var effect := action.effects[i];
      assert action.effects[..i + 1][..i] == action.effects[..i];
      if Holds(effect.condition, state) {
        next := ApplyEffect(next, effect.effect);
      }
    }
    assert action.effects[..|action.effects|] == action.effects;
  }

  /** A fact of the result was in acc or was added by a firing effect. */
  lemma {:induction false} FiringOrigin(pre: State, acc: State, effs: seq<ConditionalEffect>, f: Fact)
    requires f in ApplyFiring(pre, acc, effs)
    ensures f in acc || exists i :: Fires(pre, effs, i) && f in effs[i].effect.positive
  {
    if effs != [] {
      var n := |effs| - 1;
      if !(Fires(pre, effs, n) && f in effs[n].effect.positive) {
        FiringOrigin(pre, acc, effs[..n], f);
        if f !in acc {
          var i :| Fires(pre, effs[..n], i) && f in effs[..n][i].effect.positive;
          assert Fires(pre, effs, i);
        }
      }
    }
  }

  /** A fact of acc that no firing effect deletes is still there at the end. */
  lemma {:induction false} FiringFrame(pre: State, acc: State, effs: seq<ConditionalEffect>, f: Fact)
    requires f in acc
    requires forall i :: Fires(pre, effs, i) ==> f !in effs[i].effect.negative
    ensures f in ApplyFiring(pre, acc, effs)
  {
    if effs != [] {
      var n := |effs| - 1;
      forall i | Fires(pre, effs[..n], i)
        ensures f !in effs[..n][i].effect.negative
      {
        assert Fires(pre, effs, i);
      }
      FiringFrame(pre, acc, effs[..n], f);
      assert Fires(pre, effs, n) ==> f !in effs[n].effect.negative;
    }
  }

  /** A fact added by firing effect i and deleted by no later firing effect is in the result. */
  lemma {:induction false} FiringAdds(pre: State, acc: State, effs: seq<ConditionalEffect>, f: Fact, i: int)
    requires Fires(pre, effs, i) && f in effs[i].effect.positive
    requires forall j :: i < j && Fires(pre, effs, j) ==> f !in effs[j].effect.negative
    ensures f in ApplyFiring(pre, acc, effs)
  {
    var n := |effs| - 1;
    if i < n {
      assert Fires(pre, effs[..n], i);
      forall j | i < j && Fires(pre, effs[..n], j)
        ensures f !in effs[..n][j].effect.negative
      {
        assert Fires(pre, effs, j);
      }
      FiringAdds(pre, acc, effs[..n], f, i);
      assert Fires(pre, effs, n) ==> f !in effs[n].effect.negative;
    }
  }

  /** A fact deleted by firing effect i and added by no firing effect from i on is absent from the result. */
  lemma {:induction false} FiringDeletes(pre: State, acc: State, effs: seq<ConditionalEffect>, f: Fact, i: int)
    requires Fires(pre, effs, i) && f in effs[i].effect.negative
    requires forall j :: i <= j && Fires(pre, effs, j) ==> f !in effs[j].effect.positive
    ensures f !in ApplyFiring(pre, acc, effs)
  {
    var n := |effs| - 1;
    assert Fires(pre, effs, n) ==> f !in effs[n].effect.positive;
    if i < n {
      assert Fires(pre, effs[..n], i);
      forall j | i <= j && Fires(pre, effs[..n], j)
        ensures f !in effs[..n][j].effect.positive
      {
        assert Fires(pre, effs, j);
      }
      FiringDeletes(pre, acc, effs[..n], f, i);
    }
  }

  /** Every fact of a successor was already true or is added by an effect whose guard holds in s. */
  lemma SuccessorOrigin(s: State, a: Action, f: Fact)
    requires f in Successor(s, a)
    ensures f in s || exists i :: Fires(s, a.effects, i) && f in a.effects[i].effect.positive
  {
    FiringOrigin(s, s, a.effects, f);
  }

  /** A fact of s that no effect firing in s deletes survives into the successor. */
  lemma SuccessorFrame(s: State, a: Action, f: Fact)
    requires f in s
    requires forall i :: Fires(s, a.effects, i) ==> f !in a.effects[i].effect.negative
    ensures f in Successor(s, a)
  {
    FiringFrame(s, s, a.effects, f);
  }

  /** A fact added by an effect firing in s is in the successor unless a later firing effect deletes it. */
  lemma SuccessorAdds(s: State, a: Action, f: Fact, i: int)
    requires Fires(s, a.effects, i) && f in a.effects[i].effect.positive
    requires forall j :: i < j && Fires(s, a.effects, j) ==> f !in a.effects[j].effect.negative
    ensures f in Successor(s, a)
  {
    FiringAdds(s, s, a.effects, f, i);
  }

  /** A fact deleted by an effect firing in s is absent unless that or a later firing effect adds it. */
  lemma SuccessorDeletes(s: State, a: Action, f: Fact, i: int)
    requires Fires(s, a.effects, i) && f in a.effects[i].effect.negative
    requires forall j :: i <= j && Fires(s, a.effects, j) ==> f !in a.effects[j].effect.positive
    ensures f !in Successor(s, a)
  {
    FiringDeletes(s, s, a.effects, f, i);
  }

  /** An action none of whose guards holds in s leaves s unchanged. */
  lemma {:induction false} NoFiringNoChange(pre: State, acc: State, effs: seq<ConditionalEffect>)
    requires forall i :: 0 <= i < |effs| ==> !Holds(effs[i].condition, pre)
    ensures ApplyFiring(pre, acc, effs) == acc
  {
    if effs != [] {
      var n := |effs| - 1;
      assert !Holds(effs[n].condition, pre);
      NoFiringNoChange(pre, acc, effs[..n]);
    }
  }

  /**
   * Guards read the pre-state: the second effect is guarded by the fact the
   * first one adds, and does not fire.
   */
  lemma GuardsReadThePreState()
    ensures Successor({}, Action("a", Condition({}, {}),
      [ConditionalEffect(Condition({}, {}), Effect({1}, {})),
       ConditionalEffect(Condition({1}, {}), Effect({2}, {}))])) == {1}
  {
    var a := Action("a", Condition({}, {}),
      [ConditionalEffect(Condition({}, {}), Effect({1}, {})),
       ConditionalEffect(Condition({1}, {}), Effect({2}, {}))]);
    assert a.effects[..1][..0] == [];
    assert ApplyFiring({}, {}, a.effects[..1]) == {1};
    assert a.effects[..2][..1] == a.effects[..1];
    assert a.effects[..2] == a.effects;
  }
}
