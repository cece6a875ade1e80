/**
 * The Markov decision process the policy is built for, seen only through the
 * capabilities the builder reads: the tag carried by each state, the terminal
 * predicate, the legal actions of a state and the transition list of a
 * (state, action) pair.
 *
 * States are the positions 0 .. |tag| - 1 of the fixed, duplicate-free state
 * enumeration, so equality of states is equality of positions.
 */
module MdpModel {

  /** The tag a state carries: "S", "F", "H", "G" and the absorbing "⊥". */
  datatype Tag = Start | Frozen | Hole | Goal | Absorbing

  /** The four moves and the absorbing no-op action. */
  datatype Action = Up | Right | Down | Left | Absorb

  /** The moves the relaxation scans, in the order it scans them. */
  const Moves: seq<Action> := [Up, Right, Down, Left]

  /** The default tie-break order of the policy constructor. */
  const DefaultTieBreak: seq<Action> := [Right, Down, Left, Up]

  /** One entry of a transition list: a successor and its weight. */
  datatype Succ = Succ(state: nat, prob: real)

  datatype Mdp = Mdp(
    tag: seq<Tag>,
    isTerminal: nat -> bool,
    actions: nat -> seq<Action>,
    transition: (nat, Action) -> seq<Succ>)

  /** Every successor listed for an enumerated state is itself enumerated. */
  ghost predicate ValidMdp(m: Mdp) {
    forall s: nat, a: Action, k: nat {:trigger m.transition(s, a)[k]} ::
      s < |m.tag| && k < |m.transition(s, a)| ==> m.transition(s, a)[k].state < |m.tag|
  }

  /** The relaxation sources: states tagged goal or absorbing. */
  predicate IsSeed(m: Mdp, s: nat)
    requires s < |m.tag|
  {
    m.tag[s] == Goal || m.tag[s] == Absorbing
  }
}
