/**
 * Order-preserving selection from a list: the loop-and-add pattern the
 * planner uses to build its lists of applicable and filtered actions.
 */
module Sublists {

  /** The elements of xs that satisfy p, in their order in xs. */
  function Keep<T>(xs: seq<T>, p: T -> bool): (kept: seq<T>)
    ensures |kept| <= |xs|
  {
    if xs == [] then []
    else Keep(xs[..|xs| - 1], p) + (if p(xs[|xs| - 1]) then [xs[|xs| - 1]] else [])
  }

  /** idx lists increasing positions of ys that, read in order, spell out xs. */
  ghost predicate Embeds<T>(xs: seq<T>, ys: seq<T>, idx: seq<nat>)
  {
    && |idx| == |xs|
    && (forall k :: 0 <= k < |idx| ==> idx[k] < |ys| && xs[k] == ys[idx[k]])
    && (forall k, l :: 0 <= k < l < |idx| ==> idx[k] < idx[l])
  }

  /** xs is ys with some elements left out and the others in their original order. */
  ghost predicate IsSublist<T>(xs: seq<T>, ys: seq<T>)
  {
    exists idx :: Embeds(xs, ys, idx)
  }

  /** xs consists of exactly the elements of ys at the positions in chosen, in order. */
  ghost predicate SelectsExactly<T>(xs: seq<T>, ys: seq<T>, chosen: set<nat>)
  {
    exists idx :: Embeds(xs, ys, idx) && (forall i :: i in chosen <==> i in idx)
  }

  /** The positions of xs whose element satisfies p. */
  ghost function Positions<T>(xs: seq<T>, p: T -> bool): set<nat>
  {
    set i: nat | i < |xs| && p(xs[i])
  }

  /** Every list is a sublist of itself. */
  lemma SublistReflexive<T>(xs: seq<T>)
    ensures IsSublist(xs, xs)
  {
    var idx: seq<nat> := seq(|xs|, i requires 0 <= i => i);
    assert Embeds(xs, xs, idx);
  }

  /** Appending y to ys, and to xs when it is kept, extends an embedding by the new last position. */
  lemma EmbedsSnoc<T>(xs: seq<T>, ys: seq<T>, idx: seq<nat>, y: T, keep: bool)
    requires Embeds(xs, ys, idx)
    ensures Embeds(xs + (if keep then [y] else []), ys + [y], if keep then idx + [|ys|] else idx)
  {
  }

  /** The positions satisfying p in xs are those in its front, plus the last one when it satisfies p. */
  lemma PositionsSnoc<T>(xs: seq<T>, p: T -> bool)
    requires xs != []
    ensures Positions(xs, p) == Positions(xs[..|xs| - 1], p) + (if p(xs[|xs| - 1]) then {|xs| - 1} else {})
  {
    var n := |xs| - 1;
    forall i | i in Positions(xs, p) && i != n
      ensures i in Positions(xs[..n], p)
    {
      assert xs[..n][i] == xs[i];
    }
    forall i | i in Positions(xs[..n], p)
      ensures i in Positions(xs, p)
    {
      assert xs[..n][i] == xs[i];
    }
  }

  /** Appending y to ys, and to xs when it is kept, extends an exact selection by the new last position. */
  lemma SelectsSnoc<T>(xs: seq<T>, ys: seq<T>, chosen: set<nat>, y: T, keep: bool)
    requires SelectsExactly(xs, ys, chosen)
    ensures SelectsExactly(xs + (if keep then [y] else []), ys + [y], chosen + (if keep then {|ys|} else {}))
  {
    var idx: seq<nat> :| Embeds(xs, ys, idx) && (forall i :: i in chosen <==> i in idx);
    var idx': seq<nat> := if keep then idx + [|ys|] else idx;
    EmbedsSnoc(xs, ys, idx, y, keep);
    assert forall i :: i in chosen + (if keep then {|ys|} else {}) <==> i in idx';
  }

  /** Keep picks out exactly the positions whose element satisfies p, in order. */
  lemma {:induction false} KeepSelectsExactly<T>(xs: seq<T>, p: T -> bool)
    ensures SelectsExactly(Keep(xs, p), xs, Positions(xs, p))
  {
    if xs == [] {
      var idx: seq<nat> := [];
      assert Embeds(Keep(xs, p), xs, idx);
      assert forall i :: i in Positions(xs, p) <==> i in idx;
    } else {
      var n := |xs| - 1;
      var front := xs[..n];
      KeepSelectsExactly(front, p);
      SelectsSnoc(Keep(front, p), front, Positions(front, p), xs[n], p(xs[n]));
      assert xs == front + [xs[n]];
      PositionsSnoc(xs, p);
    }
  }

  /** An element is kept iff it occurs in the input and satisfies p. */
  lemma {:induction false} KeepMembers<T>(xs: seq<T>, p: T -> bool)
    ensures forall x :: x in Keep(xs, p) <==> x in xs && p(x)
  {
    if xs != [] {
      var n := |xs| - 1;
      KeepMembers(xs[..n], p);
      assert xs == xs[..n] + [xs[n]];
    }
  }

  /** Nothing is kept iff no element satisfies p. */
  lemma KeepEmpty<T>(xs: seq<T>, p: T -> bool)
    ensures Keep(xs, p) == [] <==> forall x :: x in xs ==> !p(x)
  {
    KeepMembers(xs, p);
    if Keep(xs, p) != [] {
      assert Keep(xs, p)[0] in Keep(xs, p);
    }
  }

  /** The filters' fallback rule: the elements satisfying p, or all of xs when none does. */
  function KeepOrAll<T>(xs: seq<T>, p: T -> bool): seq<T>
  {
    var kept := Keep(xs, p);
    if kept == [] then xs else kept
  }

  /**
   * The fallback rule yields an order-preserving sublist that is empty only on
   * empty input, exactly the elements satisfying p when there is one, and xs
   * itself when there is none.
   */
  lemma FallbackLaws<T>(xs: seq<T>, p: T -> bool)
    ensures IsSublist(KeepOrAll(xs, p), xs)
    ensures KeepOrAll(xs, p) == [] <==> xs == []
    ensures (exists x :: x in xs && p(x)) ==>
      SelectsExactly(KeepOrAll(xs, p), xs, Positions(xs, p)) && forall x :: x in KeepOrAll(xs, p) <==> x in xs && p(x)
    ensures (forall x :: x in xs ==> !p(x)) ==> KeepOrAll(xs, p) == xs
  {
    KeepSelectsExactly(xs, p);
    KeepMembers(xs, p);
    KeepEmpty(xs, p);
    SublistReflexive(xs);
  }
}
