# MyPolicy: a value-free shortest-path policy, modelled in Dafny

`MyPolicy` builds a deterministic policy for a gridworld-style Markov decision
process without evaluating any value function. It does this in three phases:

1. **Most likely successor.** Each (state, move) pair is collapsed to the
   single successor of highest weight. Python's `max` keeps the first maximum.
   An empty transition list leaves the state where it is.
2. **Multi-source relaxation.** Goal (`"G"`) and absorbing (`"⊥"`) states
   start at distance 0 and go into a FIFO queue. Every other state, holes
   included, starts at infinity. Then, while the queue is not empty, the head
   `t` is popped. Every non-terminal state with a move whose most likely
   successor is `t` is lowered to `d[t] + 1` when that is strictly smaller,
   and appended to the queue.
3. **Greedy extraction.** Each non-terminal state with legal actions gets one
   action: the one with the smallest effective distance, where a move into a
   hole counts as infinitely far. Ties go to the action that comes first in
   the `tie_break` order, which defaults to `(RIGHT, DOWN, LEFT, UP)`. A query
   for a state without an entry answers `ABSORB`.

The Dafny project splits these phases into modules:

- `mdp.dfy` (`MdpModel`): the process as the builder sees it. States are the
  positions of the state enumeration, each with a tag. The terminal
  predicate, the legal actions and the transition lists are function-valued
  fields.
- `distance.dfy` (`Distance`): `Fin(hops) | Inf`, with the comparisons the
  source performs on `math.inf`. Also the termination measure of the
  relaxation.
- `successor.dfy` (`Successor`): `_most_likely_successor`.
- `paths.dfy` (`Paths`): the most-likely-successor graph, its paths to a
  source, and the proof that a closed, witnessed table holds shortest hop
  counts.
- `relaxation.dfy` (`Relaxation`): seeding and the queue-driven relaxation,
  as methods with loops over a `seq` table and a `seq` queue.
- `extraction.dfy` (`Extraction`): the greedy choice with its tie-break.
- `my_policy.dfy` (`PolicyBuilder`): the `MyPolicy` class, whose constructor
  builds the table and whose `Decision` answers queries.

Main results:

- The relaxation terminates. This is proved by the lexicographic measure
  (number of infinite entries, sum of finite entries, queue length).
- On exit, exactly the sources are at 0 and holes stay at infinity.
- On exit, every finite entry is the length of a shortest path to a source,
  and no path is shorter.
- The extraction picks the argmin with the stated tie-break.
- When every legal action appears in the tie-break order, that choice does
  not depend on the order in which `actions(s)` lists the actions.
- Building from the same inputs always yields the same table.

## Model

| member | source | states |
|---|---|---|
| Successor.FirstMax | my_policy.py:58 | `max(succs, key=...)`: a valid position of the non-empty list; its partner `FirstMaxIsFirstMax` states it is the first position of maximal weight |
| Successor.MostLikelySuccessor | my_policy.py:55-59 | `_most_likely_successor`; its partner lemmas `MostLikelySuccessorIsFirstMax` and `SuccessorInRange` state what it returns |
| Successor.FirstMaxIsFirstMax | my_policy.py:58 | the position `max` with a key selects holds a maximal weight, and every earlier entry has a strictly smaller weight (the first maximum wins) |
| Successor.MostLikelySuccessorIsFirstMax | my_policy.py:55-59 | the most likely successor is the state of the first maximal-weight entry of the transition list; for an empty list it is the state itself |
| Successor.SuccessorInRange | my_policy.py:55-59 | the most likely successor of an enumerated state is enumerated |
| Relaxation.SeedsBelowExactly | my_policy.py:68-71 | the seeding queue holds exactly the goal and absorbing states, each once, in enumeration order |
| Relaxation.Seed | my_policy.py:65-71 | after seeding, goal and absorbing states are at 0 and every other state is at infinity; the queue is the list of those seeds |
| Relaxation.RelaxState | my_policy.py:76-82 | the four moves of one state against the dequeued `t`: the state is lowered to d[t]+1 exactly when it is non-terminal, some move's most likely successor is `t`, and d[t]+1 is strictly smaller; it is appended to the queue exactly when it was lowered |
| Relaxation.Tightened | my_policy.py:79-81 | the compare-and-set against the dequeued `t`: lowered to d[t]+1 only along an edge into `t` and only when strictly smaller; its partner `TightenedFacts` states it reads only the entries of `x` and `t` and never raises an entry |
| Relaxation.TightenedFacts | my_policy.py:79-81 | tightening reads only the entries of the state and of `t`, and never raises the state's entry |
| Relaxation.Scan | my_policy.py:75-82 | one pass against `t` tightens every state along its edges into `t`; no entry rises; terminal states are untouched; the queue grows by exactly the states whose entry changed, in enumeration order |
| Relaxation.ChangedExactly | my_policy.py:80-82 | the states appended during a pass are exactly those whose distance dropped, in increasing order |
| Relaxation.ScanKeepsClosure | my_policy.py:73-82 | after a pass against `t`, every edge into a state that is no longer queued satisfies d[s] <= d[u]+1 |
| Relaxation.ScanQueueFinite | my_policy.py:73-82 | every queued state has a finite distance |
| Relaxation.ScanKeepsChain | my_policy.py:73-82 | a pass keeps sources at 0, terminal non-sources at infinity, and every finite non-zero entry witnessed by an edge to a strictly smaller entry |
| Relaxation.SeedEstablishes | my_policy.py:65-71 | the seeded table and queue satisfy the loop invariant of the relaxation |
| Relaxation.RoundKeeps | my_policy.py:73-82 | one round of the `while queue` loop keeps the invariant and strictly decreases the termination measure |
| Distance.BelowDecreases | my_policy.py:80-81 | a table pointwise below another either equals it or is lexicographically smaller in (count of infinities, sum of finite entries) |
| Relaxation.Relax | my_policy.py:65-82 | the relaxation terminates; exactly the goal and absorbing states end at 0; terminal non-sources (holes) end at infinity; every non-terminal state satisfies d[s] <= d[mls(s,a)]+1 for each of the four moves; every finite entry is the length of a shortest most-likely-successor path to a source |
| Paths.ClosedBoundsPath | my_policy.py:24-26 | in a closed table, the entry of a state is at most the length of any path from it to a source |
| Paths.ChainedHasPath | my_policy.py:24-26 | in a witnessed table, every finite entry is the length of some path to a source |
| Paths.FixedPointIsShortest | my_policy.py:24-26 | a closed, witnessed table with the sources at 0 is the table of shortest hop counts |
| Paths.ShortestUnique | my_policy.py:24-26 | there is exactly one table of shortest hop counts |
| Extraction.IndexOf | my_policy.py:99 | `tuple.index`: the first position that holds the action |
| Extraction.Effective | my_policy.py:90-95 | the candidate distance of a move: infinity when the most likely successor is a hole, else that successor's entry; `SuccessorInRange` makes the lookup defined |
| Extraction.ChooseAction | my_policy.py:87-102 | a state with no legal actions gets no choice; otherwise the choice is a legal action of least effective distance (infinity into a hole). When every legal action is in the tie-break order, the choice comes first in that order among the actions at that distance, and no error occurs; an error implies some legal action is missing from the order |
| Extraction.Extract | my_policy.py:84-105 | on success, exactly the non-terminal states with legal actions get an entry, and each entry is a legal action of least effective distance; when every legal action is in the tie-break order it succeeds and each entry is that state's best choice; an error implies the tie-break order misses an action |
| Extraction.DefaultTieBreakCovers | my_policy.py:40 | the default order (RIGHT, DOWN, LEFT, UP) covers every process whose non-terminal states offer only the four moves |
| Extraction.ChoiceUnique | my_policy.py:97-102 | when every legal action is in the tie-break order, the best choice is unique and does not depend on the order in which `actions(s)` lists the actions |
| Extraction.AvoidsHoles | my_policy.py:31-32 | when some legal action has a finite effective distance, the chosen action has one too and does not lead into a hole |
| PolicyBuilder.BuildDeterministic | my_policy.py:61-105 | two builds from the same process and tie-break order produce the same distance table and the same policy table |
| PolicyBuilder.MyPolicy.constructor | my_policy.py:36-49 | the constructor stores the process and the tie-break order and builds a valid table |
| PolicyBuilder.MyPolicy.Build | my_policy.py:61-105 | after the build, the distances are the shortest hop counts and the policy table is the extraction from them |
| PolicyBuilder.MyPolicy.Decision | my_policy.py:52-53 | a state with an entry gets that entry, which is its best choice; any other state gets `ABSORB` |

## Left out

- bellman.py and policy_eval.py are not part of this model. They are floating-point numpy numerics: a matrix-vector Bellman update, a wrapper over a foreign linear solver, and an iterative evaluator with a float stopping test. In passing: on convergence the iterative evaluator returns the previous iterate `v` rather than `v_new` (policy_eval.py:38-42).
- run.py and plot_utils.py are not part of this model. They are orchestration, printing and matplotlib rendering.
- The modules `mdp`, `policy`, `mdp_utils` and `lake_mdp` are not part of this model. The process is a parameter: a tag per enumerated state, plus the terminal predicate, the legal actions and the transition lists as functions.
- `enumerate_states` is not modelled. States are the positions of its result. `ValidMdp` assumes that the enumeration is closed under every listed successor of every enumerated state, for any action, because a state outside the enumeration has no tag and no distance entry in the model. This is more than Python needs: it reads `d` by a successor only at my_policy.py:95, for the most likely successor of a legal action of a non-terminal state that is not a hole, and would raise `KeyError` there otherwise.
- The random generator `rng` is unused by the builder and is not modelled. The same goes for the import fallback for the action constants: one action datatype stands for both spellings.
- Transition weights are `real`. Only `>` between weights is used, so float rounding plays no part.
- `Policy`, the base class, and whatever dispatches to `_decision` are not part of this model.
- PolicyBuilder.MyPolicy.constructor: requires that every legal action of every non-terminal state appears in the tie-break order. In Python, a missing action raises `ValueError` only when it takes part in a tie. `Extraction.ChooseAction` and `Extraction.Extract` model that error path. The class only models builds that succeed.
- Extraction.ChooseAction: the error case is stated as implying that some legal action is missing from the tie-break order. The exact condition is left unstated: Python raises only when such an action takes part in a tie.
- Extraction.Extract: the error case is stated only as implying that the tie-break order misses a legal action of some non-terminal state. The exact condition is left unstated: Python raises only when such an action takes part in a tie. So the contract does not promise success for, say, a state whose only legal action is missing from the order, although neither Python nor the method fails there.
- PolicyBuilder.MyPolicy.Build: the distance table is kept as a ghost field so the contracts can mention it. Python keeps it only as a local of `_build`.
