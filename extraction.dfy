/**
 * The third phase of `_build` (my_policy.py:84-105): a one-step greedy choice
 * per non-terminal state over the relaxed distance table, with holes counted
 * as infinitely far and ties broken by a fixed action order.
 */
module Extraction {
  import opened MdpModel
  import opened Distance
  import opened Successor

  datatype Option<T> = None | Some(value: T)

  /** A computed value, or the `ValueError` that `tuple.index` raises on a missing element. */
  datatype Result<T> = Ok(value: T) | TieBreakError

  /** Python's `tuple.index`: the first position of `a` in `tb`. */
  function IndexOf(tb: seq<Action>, a: Action): (i: nat)
    requires a in tb
    ensures i < |tb| && tb[i] == a
    ensures forall j :: 0 <= j < i ==> tb[j] != a
  {
    if tb[0] == a then 0 else 1 + IndexOf(tb[1..], a)
  }

  /** Every legal action of every non-terminal state appears in the tie-break order. */
  ghost predicate CoversActions(m: Mdp, tb: seq<Action>) {
    forall s: nat, a: Action :: s < |m.tag| && !m.isTerminal(s) && a in m.actions(s) ==> a in tb
  }

  /**
   * The default tie-break order covers every process whose non-terminal
   * states only offer the four moves.
   */
  lemma DefaultTieBreakCovers(m: Mdp)
    requires forall s: nat, a: Action :: s < |m.tag| && !m.isTerminal(s) && a in m.actions(s) ==> a in Moves
    ensures CoversActions(m, DefaultTieBreak)
  {
    forall s: nat, a: Action | s < |m.tag| && !m.isTerminal(s) && a in m.actions(s)
      ensures a in DefaultTieBreak
    {
      assert a in Moves;
      assert a != Absorb;
    }
  }

  /** The distance a move is judged by: infinity into a hole, else the table entry. */
  function Effective(m: Mdp, d: seq<Dist>, s: nat, a: Action): Dist
    requires ValidMdp(m) && |d| == |m.tag| && s < |d|
  {
    var t := MostLikelySuccessor(m, s, a);
    SuccessorInRange(m, s, a);
    if m.tag[t] == Hole then Inf else d[t]
  }

  /**
   * `a` is a legal action of `s` with the least effective distance, and among
   * the legal actions of that effective distance it comes first in `tb`.
   */
  ghost predicate IsBestChoice(m: Mdp, d: seq<Dist>, tb: seq<Action>, s: nat, a: Action)
    requires ValidMdp(m) && |d| == |m.tag| && s < |d|
    requires forall b :: b in m.actions(s) ==> b in tb
  {
    a in m.actions(s) &&
    forall b :: b in m.actions(s) ==>
      Leq(Effective(m, d, s, a), Effective(m, d, s, b)) &&
      (Effective(m, d, s, b) == Effective(m, d, s, a) ==> IndexOf(tb, a) <= IndexOf(tb, b))
  }

  /**
   * The inner loop of the extraction (my_policy.py:87-102). The first legal
   * action is always taken, even at infinite distance, because nothing has
   * been chosen yet; later ones replace it when strictly closer, or equally
   * close and earlier in `tb`. Comparing positions in `tb` fails, as
   * `tuple.index` does, when either action of a tie is missing from `tb`.
   */
  method ChooseAction(m: Mdp, d: seq<Dist>, tb: seq<Action>, s: nat) returns (r: Result<Option<Action>>)
    requires ValidMdp(m) && |d| == |m.tag| && s < |d|
    ensures r.TieBreakError? ==> exists b :: b in m.actions(s) && b !in tb
    ensures (forall b :: b in m.actions(s) ==> b in tb) ==> r.Ok?
    ensures r.Ok? ==> (r.value.None? <==> m.actions(s) == [])
    ensures r.Ok? && r.value.Some? ==> (r.value.value in m.actions(s) &&
      forall b :: b in m.actions(s) ==> Leq(Effective(m, d, s, r.value.value), Effective(m, d, s, b)))
    ensures r.Ok? && r.value.Some? && (forall b :: b in m.actions(s) ==> b in tb) ==>
      IsBestChoice(m, d, tb, s, r.value.value)
  {
    var acts := m.actions(s);
    ghost var covered := forall b :: b in acts ==> b in tb;
    var best := None;
    var bestD := Inf;
    var i := 0;
    while i < |acts|
      invariant 0 <= i <= |acts|
      invariant best.None? <==> i == 0
      invariant best.None? ==> bestD == Inf
      invariant best.Some? ==> best.value in acts && bestD == Effective(m, d, s, best.value)
      invariant best.Some? ==> forall j :: 0 <= j < i ==> Leq(bestD, Effective(m, d, s, acts[j]))
      invariant best.Some? && covered ==> forall j :: 0 <= j < i ==>
        (Effective(m, d, s, acts[j]) == bestD ==> IndexOf(tb, best.value) <= IndexOf(tb, acts[j]))
    {
      var a := acts[i];
      assert a in acts;
      var candidate := Effective(m, d, s, a);
      var earlier := false;
      if candidate == bestD && best.Some? {
        if a !in tb || best.value !in tb {
          return TieBreakError;
        }
        earlier := IndexOf(tb, a) < IndexOf(tb, best.value);
      }
      if Less(candidate, bestD) || (candidate == bestD && (best.None? || earlier)) {
        bestD := candidate;
        best := Some(a);
      }
      i := i + 1;
    }
    return Ok(best);
  }

  /**
   * The extraction loop (my_policy.py:84-105): terminal states and states
   * without legal actions get no entry; every other state gets its best
   * choice. A failed tie-break comparison aborts the whole extraction.
   */
  method Extract(m: Mdp, d: seq<Dist>, tb: seq<Action>) returns (r: Result<map<nat, Action>>)
    requires ValidMdp(m) && |d| == |m.tag|
    ensures r.TieBreakError? ==> !CoversActions(m, tb)
    ensures r.Ok? ==> forall s: nat :: s in r.value <==> s < |m.tag| && !m.isTerminal(s) && m.actions(s) != []
    ensures r.Ok? ==> forall s: nat :: s in r.value ==> (r.value[s] in m.actions(s) &&
      forall b :: b in m.actions(s) ==> Leq(Effective(m, d, s, r.value[s]), Effective(m, d, s, b)))
    ensures CoversActions(m, tb) ==> (r.Ok? &&
      (forall s: nat :: s in r.value <==> s < |m.tag| && !m.isTerminal(s) && m.actions(s) != []) &&
      (forall s: nat :: s in r.value ==> IsBestChoice(m, d, tb, s, r.value[s])))
  {
    var policy: map<nat, Action> := map[];
    var s := 0;
    while s < |m.tag|
      invariant s <= |m.tag|
      invariant forall x: nat :: x in policy <==> x < s && !m.isTerminal(x) && m.actions(x) != []
      invariant forall x: nat :: x in policy ==> (policy[x] in m.actions(x) &&
        forall b :: b in m.actions(x) ==> Leq(Effective(m, d, x, policy[x]), Effective(m, d, x, b)))
      invariant CoversActions(m, tb) ==> forall x: nat :: x in policy ==> IsBestChoice(m, d, tb, x, policy[x])
    {
      if !m.isTerminal(s) {
        var best := ChooseAction(m, d, tb, s);
        if best.TieBreakError? {
          return TieBreakError;
        }
        if best.value.Some? {
          policy := policy[s := best.value.value];
        }
      }
      s := s + 1;
    }
    return Ok(policy);
  }

  /**
   * The best choice is determined by the members of actions(s) alone: two
   * processes that list the same legal actions of `s`, in whatever order, over
   * the same graph have the same best choice.
   */
  lemma {:induction false} ChoiceUnique(m1: Mdp, m2: Mdp, d: seq<Dist>, tb: seq<Action>, s: nat, a1: Action, a2: Action)
    requires m1.tag == m2.tag && m1.transition == m2.transition
    requires ValidMdp(m1) && |d| == |m1.tag| && s < |d|
    requires forall b :: b in m1.actions(s) <==> b in m2.actions(s)
    requires forall b :: b in m1.actions(s) ==> b in tb
    requires IsBestChoice(m1, d, tb, s, a1) && IsBestChoice(m2, d, tb, s, a2)
    ensures a1 == a2
  {
    assert Effective(m1, d, s, a2) == Effective(m2, d, s, a2);
    assert Effective(m1, d, s, a1) == Effective(m2, d, s, a1);
    assert Effective(m1, d, s, a1) == Effective(m1, d, s, a2);
    assert IndexOf(tb, a1) == IndexOf(tb, a2);
  }

  /**
   * A best choice never steps into a hole when some legal action of the state
   * has a finite effective distance.
   */
  lemma AvoidsHoles(m: Mdp, d: seq<Dist>, tb: seq<Action>, s: nat, a: Action, b: Action)
    requires ValidMdp(m) && |d| == |m.tag| && s < |d|
    requires forall c :: c in m.actions(s) ==> c in tb
    requires IsBestChoice(m, d, tb, s, a)
    requires b in m.actions(s) && Effective(m, d, s, b).Fin?
    ensures Effective(m, d, s, a).Fin?
    ensures m.tag[MostLikelySuccessor(m, s, a)] != Hole
  {
    SuccessorInRange(m, s, a);
  }
}
