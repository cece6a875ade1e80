/**
 * The value-free policy constructor `MyPolicy` (my_policy.py:17-105): it is
 * built once from a decision process and a tie-break order, and afterwards
 * answers queries from its table, with the absorbing action for every state
 * that has no entry.
 */
module PolicyBuilder {
  import opened MdpModel
  import opened Distance
  import opened Paths
  import opened Relaxation
  import opened Extraction

  /**
   * `policy` is the table the extraction produces from `d`: exactly the
   * non-terminal states with a legal action have an entry, and each entry is
   * that state's best choice.
   */
  ghost predicate PolicyFor(m: Mdp, d: seq<Dist>, tb: seq<Action>, policy: map<nat, Action>)
    requires ValidMdp(m) && |d| == |m.tag| && CoversActions(m, tb)
  {
    (forall s: nat :: s in policy <==> s < |m.tag| && !m.isTerminal(s) && m.actions(s) != []) &&
    (forall s: nat :: s in policy ==> IsBestChoice(m, d, tb, s, policy[s]))
  }

  /**
   * Building twice from the same process and tie-break order gives the same
   * table: the distances are the unique shortest hop counts and each entry is
   * the unique best choice.
   */
  lemma BuildDeterministic(m: Mdp, tb: seq<Action>, d1: seq<Dist>, p1: map<nat, Action>, d2: seq<Dist>, p2: map<nat, Action>)
    requires ValidMdp(m) && CoversActions(m, tb)
    requires IsShortest(SuccessorGraph(m), d1) && IsShortest(SuccessorGraph(m), d2)
    requires PolicyFor(m, d1, tb, p1) && PolicyFor(m, d2, tb, p2)
    ensures d1 == d2 && p1 == p2
  {
    ShortestUnique(SuccessorGraph(m), d1, d2);
    assert p1.Keys == p2.Keys;
    forall s | s in p1 ensures p1[s] == p2[s] {
      ChoiceUnique(m, m, d1, tb, s, p1[s], p2[s]);
    }
  }

  class MyPolicy {
    const mdp: Mdp
    const tieBreak: seq<Action>
    var policy: map<nat, Action>
    /** The relaxed distance table the policy was extracted from. */
    ghost var dist: seq<Dist>

    ghost predicate Valid()
      reads this
    {
      ValidMdp(mdp) && CoversActions(mdp, tieBreak) &&
      |dist| == |mdp.tag| && IsShortest(SuccessorGraph(mdp), dist) &&
      (forall s :: 0 <= s < |dist| ==> (dist[s] == Fin(0) <==> IsSeed(mdp, s))) &&
      (forall s :: 0 <= s < |dist| && mdp.isTerminal(s) && !IsSeed(mdp, s) ==> dist[s] == Inf) &&
      PolicyFor(mdp, dist, tieBreak, policy)
    }

    /** `__init__` (my_policy.py:36-49): store the inputs and build the table. */
    constructor (m: Mdp, tieBreak: seq<Action>)
      requires ValidMdp(m) && CoversActions(m, tieBreak)
      ensures mdp == m && this.tieBreak == tieBreak
      ensures Valid()
    {
      mdp := m;
      this.tieBreak := tieBreak;
      policy := map[];
      dist := [];
      new;
      Build();
    }

    /** `_build` (my_policy.py:61-105): relax the graph, then extract the table. */
    method Build()
      requires ValidMdp(mdp) && CoversActions(mdp, tieBreak)
      modifies this
      ensures Valid()
    {
      var d := Relax(mdp);
      var r := Extract(mdp, d, tieBreak);
      policy := r.value;
      dist := d;
    }

    /** `_decision` (my_policy.py:52-53): the stored action, or the absorbing one. */
    function Decision(s: nat): (a: Action)
      reads this
      requires Valid()
      ensures s in policy ==> a == policy[s]
      ensures s < |mdp.tag| && !mdp.isTerminal(s) && mdp.actions(s) != [] ==>
        IsBestChoice(mdp, dist, tieBreak, s, a)
      ensures s >= |mdp.tag| || mdp.isTerminal(s) || mdp.actions(s) == [] ==> a == Absorb
    {
      if s in policy then policy[s] else Absorb
    }
  }
}
