/**
 * The most-likely-successor graph as the relaxation sees it, its paths to a
 * relaxation source, and the facts that tie a distance table to them.
 */
module Paths {
  import opened MdpModel
  import opened Distance

  /**
   * States 0 .. |seed| - 1; `seed[s]` says whether `s` is a source,
   * `terminal(s)` whether the relaxation skips it, and `next(s, a)` is the
   * state move `a` leads to from `s`.
   */
  datatype Graph = Graph(seed: seq<bool>, terminal: nat -> bool, next: (nat, Action) -> nat)

  /** An edge leaves a non-terminal state along one of the four moves. */
  predicate Edge(g: Graph, s: nat, t: nat) {
    s < |g.seed| && t < |g.seed| && !g.terminal(s) &&
    (t == g.next(s, Up) || t == g.next(s, Right) || t == g.next(s, Down) || t == g.next(s, Left))
  }

  /** `p` starts at `s`, follows edges, and ends at a seed. */
  ghost predicate IsPathFrom(g: Graph, p: seq<nat>, s: nat) {
    |p| > 0 && p[0] == s && p[|p| - 1] < |g.seed| && g.seed[p[|p| - 1]] &&
    forall i :: 0 <= i < |p| - 1 ==> Edge(g, p[i], p[i + 1])
  }

  /** Some path of `k` hops leads from `s` to a seed. */
  ghost predicate HasPath(g: Graph, s: nat, k: nat) {
    exists p :: IsPathFrom(g, p, s) && |p| == k + 1
  }

  /** Every seed is at distance 0. */
  ghost predicate SeedsAtZero(g: Graph, d: seq<Dist>) {
    |d| == |g.seed| && forall s :: 0 <= s < |d| && g.seed[s] ==> d[s] == Fin(0)
  }

  /** The fixed point of the relaxation: no edge can tighten any entry. */
  ghost predicate Closed(g: Graph, d: seq<Dist>) {
    |d| == |g.seed| && forall s: nat, t: nat :: Edge(g, s, t) ==> Leq(d[s], Plus1(d[t]))
  }

  /**
   * Every finite non-zero entry points, along an edge, at a state whose entry
   * is strictly smaller; every zero entry is a seed.
   */
  ghost predicate Chained(g: Graph, d: seq<Dist>, next: seq<nat>) {
    |d| == |g.seed| && |next| == |d| &&
    (forall s :: 0 <= s < |d| && d[s] == Fin(0) ==> g.seed[s]) &&
    forall s :: 0 <= s < |d| && d[s].Fin? && d[s].hops > 0 ==>
      Edge(g, s, next[s]) && d[next[s]].Fin? && d[next[s]].hops < d[s].hops
  }

  /** `d` is the table of shortest hop counts to a seed. */
  ghost predicate IsShortest(g: Graph, d: seq<Dist>) {
    |d| == |g.seed| &&
    (forall s :: 0 <= s < |d| && d[s].Fin? ==> HasPath(g, s, d[s].hops)) &&
    (forall s, p :: 0 <= s < |d| && IsPathFrom(g, p, s) ==> Leq(d[s], Fin(|p| - 1)))
  }

  /** A closed table with the seeds at zero is a lower bound on every path. */
  lemma {:induction false} ClosedBoundsPath(g: Graph, d: seq<Dist>, p: seq<nat>, s: nat)
    requires Closed(g, d) && SeedsAtZero(g, d)
    requires s < |d| && IsPathFrom(g, p, s)
    ensures Leq(d[s], Fin(|p| - 1))
  {
    if |p| > 1 {
      var q := p[1..];
      assert IsPathFrom(g, q, p[1]) by {
        forall i | 0 <= i < |q| - 1 ensures Edge(g, q[i], q[i + 1]) {
          assert Edge(g, p[i + 1], p[i + 2]);
        }
      }
      assert Edge(g, s, p[1]);
      ClosedBoundsPath(g, d, q, p[1]);
    }
  }

  /** In a closed, chained table every finite entry is realised by a path. */
  lemma {:induction false} ChainedHasPath(g: Graph, d: seq<Dist>, next: seq<nat>, s: nat)
    requires Closed(g, d) && Chained(g, d, next)
    requires s < |d| && d[s].Fin?
    ensures HasPath(g, s, d[s].hops)
    decreases d[s].hops
  {
    if d[s].hops == 0 {
      assert IsPathFrom(g, [s], s);
    } else {
      var t := next[s];
      assert Edge(g, s, t);
      assert d[t] == Fin(d[s].hops - 1);
      ChainedHasPath(g, d, next, t);
      var q :| IsPathFrom(g, q, t) && |q| == d[t].hops + 1;
      var p := [s] + q;
      assert IsPathFrom(g, p, s) by {
        forall i | 0 <= i < |p| - 1 ensures Edge(g, p[i], p[i + 1]) {
          if i > 0 {
            assert p[i] == q[i - 1] && p[i + 1] == q[i];
          }
        }
      }
    }
  }

  /**
   * A fixed point of the relaxation whose finite entries are witnessed by a
   * chain of strictly smaller entries is the table of shortest hop counts.
   */
  lemma FixedPointIsShortest(g: Graph, d: seq<Dist>, next: seq<nat>)
    requires Closed(g, d) && Chained(g, d, next) && SeedsAtZero(g, d)
    ensures IsShortest(g, d)
  {
    forall s | 0 <= s < |d| && d[s].Fin? ensures HasPath(g, s, d[s].hops) {
      ChainedHasPath(g, d, next, s);
    }
    forall s, p | 0 <= s < |d| && IsPathFrom(g, p, s) ensures Leq(d[s], Fin(|p| - 1)) {
      ClosedBoundsPath(g, d, p, s);
    }
  }

  /** At most one table is the table of shortest hop counts. */
  lemma ShortestUnique(g: Graph, d1: seq<Dist>, d2: seq<Dist>)
    requires IsShortest(g, d1) && IsShortest(g, d2)
    ensures d1 == d2
  {
    forall s | 0 <= s < |d1| ensures d1[s] == d2[s] {
      if d1[s].Fin? {
        var p :| IsPathFrom(g, p, s) && |p| == d1[s].hops + 1;
        assert Leq(d2[s], Fin(|p| - 1));
      }
      if d2[s].Fin? {
        var p :| IsPathFrom(g, p, s) && |p| == d2[s].hops + 1;
        assert Leq(d1[s], Fin(|p| - 1));
      }
    }
  }
}
