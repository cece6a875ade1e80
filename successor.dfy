/**
 * The most-likely-successor graph: each (state, move) pair points at the
 * successor of highest weight in its transition list (my_policy.py:55-59).
 */
module Successor {
  import opened MdpModel

  /** `j` is the first position of a maximal weight in `ps`. */
  ghost predicate IsFirstMax(ps: seq<Succ>, j: nat) {
    j < |ps| &&
    (forall k :: 0 <= k < |ps| ==> ps[k].prob <= ps[j].prob) &&
    (forall k :: 0 <= k < j ==> ps[k].prob < ps[j].prob)
  }

  /**
   * The position Python's `max` with a key returns: it scans left to right and
   * replaces the current best only on a strictly greater key.
   */
  function FirstMax(ps: seq<Succ>): (j: nat)
    requires |ps| > 0
    ensures j < |ps|
    decreases |ps|
  {
    if |ps| == 1 then 0
    else
      var j := FirstMax(ps[..|ps| - 1]);
      if ps[|ps| - 1].prob > ps[j].prob then |ps| - 1 else j
  }

  /** That position holds a maximal weight and no earlier one does. */
  lemma {:induction false} FirstMaxIsFirstMax(ps: seq<Succ>)
    requires |ps| > 0
    ensures IsFirstMax(ps, FirstMax(ps))
    decreases |ps|
  {
    if |ps| > 1 {
      var init := ps[..|ps| - 1];
      FirstMaxIsFirstMax(init);
      assert forall k :: 0 <= k < |init| ==> init[k] == ps[k];
    }
  }

  /** `_most_likely_successor`: the first most probable successor, or `s` itself. */
  function MostLikelySuccessor(m: Mdp, s: nat, a: Action): nat {
    var succs := m.transition(s, a);
    if succs != [] then succs[FirstMax(succs)].state else s
  }

  /**
   * The most likely successor is the state of the first entry of maximal
   * weight, and `s` itself when the transition list is empty.
   */
  lemma MostLikelySuccessorIsFirstMax(m: Mdp, s: nat, a: Action)
    ensures m.transition(s, a) == [] ==> MostLikelySuccessor(m, s, a) == s
    ensures m.transition(s, a) != [] ==>
      exists j: nat :: IsFirstMax(m.transition(s, a), j) &&
        MostLikelySuccessor(m, s, a) == m.transition(s, a)[j].state
  {
    if m.transition(s, a) != [] {
      FirstMaxIsFirstMax(m.transition(s, a));
    }
  }

  /** Successors of enumerated states are enumerated. */
  lemma SuccessorInRange(m: Mdp, s: nat, a: Action)
    requires ValidMdp(m) && s < |m.tag|
    ensures MostLikelySuccessor(m, s, a) < |m.tag|
  {
    if m.transition(s, a) != [] {
      FirstMaxIsFirstMax(m.transition(s, a));
      var j := FirstMax(m.transition(s, a));
      assert m.transition(s, a)[j].state < |m.tag|;
    }
  }
}
