/**
 * The first two phases of `_build` (my_policy.py:65-82): seed the distance
 * table and the FIFO queue with the goal and absorbing states, then relax the
 * most-likely-successor graph backwards until the queue is empty.
 */
module Relaxation {
  import opened MdpModel
  import opened Distance
  import opened Successor
  import opened Paths

  /**
   * The graph the relaxation runs on: the seeds are the goal and absorbing
   * states, the relaxation skips terminal states, and move `a` leads from `s`
   * to its most likely successor.
   */
  function SuccessorGraph(m: Mdp): (g: Graph)
    ensures IsSuccessorGraph(m, g)
  {
    Graph(seq(|m.tag|, i requires 0 <= i < |m.tag| => IsSeed(m, i)),
          m.isTerminal,
          (s: nat, a: Action) => MostLikelySuccessor(m, s, a))
  }

  /** `g` has the seeds, the terminal predicate and the successors of `m`. */
  ghost predicate IsSuccessorGraph(m: Mdp, g: Graph) {
    |g.seed| == |m.tag| &&
    (forall s :: 0 <= s < |m.tag| ==> g.seed[s] == IsSeed(m, s)) &&
    g.terminal == m.isTerminal &&
    forall s: nat, a: Action {:trigger MostLikelySuccessor(m, s, a)} :: g.next(s, a) == MostLikelySuccessor(m, s, a)
  }

  /** The seeds below position `k`, in enumeration order. */
  function SeedsBelow(m: Mdp, k: nat): seq<nat>
    requires k <= |m.tag|
  {
    if k == 0 then [] else SeedsBelow(m, k - 1) + (if IsSeed(m, k - 1) then [k - 1] else [])
  }

  /** SeedsBelow lists exactly the seeds below `k`, in increasing order. */
  lemma {:induction false} SeedsBelowExactly(m: Mdp, k: nat)
    requires k <= |m.tag|
    ensures forall s: nat :: s in SeedsBelow(m, k) <==> s < k && IsSeed(m, s)
    ensures forall i, j :: 0 <= i < j < |SeedsBelow(m, k)| ==> SeedsBelow(m, k)[i] < SeedsBelow(m, k)[j]
  {
    if k > 0 {
      SeedsBelowExactly(m, k - 1);
      var q := SeedsBelow(m, k - 1);
      assert forall i :: 0 <= i < |q| ==> q[i] < k - 1 by {
        forall i | 0 <= i < |q| ensures q[i] < k - 1 {
          assert q[i] in q;
        }
      }
    }
  }

  /** The positions below `k` whose entry differs between the two tables, in order. */
  function Changed(before: seq<Dist>, after: seq<Dist>, k: nat): seq<nat>
    requires k <= |before| == |after|
  {
    if k == 0 then []
    else Changed(before, after, k - 1) + (if after[k - 1] != before[k - 1] then [k - 1] else [])
  }

  /** Changed lists exactly the differing positions below `k`, in increasing order. */
  lemma {:induction false} ChangedExactly(before: seq<Dist>, after: seq<Dist>, k: nat)
    requires k <= |before| == |after|
    ensures forall x: nat :: x in Changed(before, after, k) <==> x < k && after[x] != before[x]
    ensures forall i, j :: 0 <= i < j < |Changed(before, after, k)| ==>
      Changed(before, after, k)[i] < Changed(before, after, k)[j]
  {
    if k > 0 {
      ChangedExactly(before, after, k - 1);
      var c := Changed(before, after, k - 1);
      assert forall i :: 0 <= i < |c| ==> c[i] < k - 1 by {
        forall i | 0 <= i < |c| ensures c[i] < k - 1 {
          assert c[i] in c;
        }
      }
    }
  }

  /** Nothing is listed when nothing changed. */
  lemma {:induction false} ChangedNone(d: seq<Dist>, k: nat)
    requires k <= |d|
    ensures Changed(d, d, k) == []
  {
    if k > 0 {
      ChangedNone(d, k - 1);
    }
  }

  /** Changed below `k` looks at nothing at or above `k`. */
  lemma {:induction false} ChangedBelow(before: seq<Dist>, after: seq<Dist>, after': seq<Dist>, k: nat)
    requires k <= |before| == |after| == |after'|
    requires forall x :: 0 <= x < k ==> after[x] == after'[x]
    ensures Changed(before, after, k) == Changed(before, after', k)
  {
    if k > 0 {
      ChangedBelow(before, after, after', k - 1);
    }
  }

  /**
   * The entry of `x` after the relaxation has scanned every (state, move) pair
   * against the dequeued state `t`.
   */
  function Tightened(g: Graph, d: seq<Dist>, t: nat, x: nat): Dist
    requires t < |d| && x < |d|
  {
    if Edge(g, x, t) && Less(Plus1(d[t]), d[x]) then Plus1(d[t]) else d[x]
  }

  /** Tightening only reads the entries of `x` and `t`, and never raises an entry. */
  lemma TightenedFacts(g: Graph, d1: seq<Dist>, d2: seq<Dist>, t: nat, x: nat)
    requires t < |d1| && x < |d1| && t < |d2| && x < |d2|
    ensures d1[t] == d2[t] && d1[x] == d2[x] ==> Tightened(g, d1, t, x) == Tightened(g, d2, t, x)
    ensures Leq(Tightened(g, d1, t, x), d1[x])
  {
  }

  /** The table with the positions below `k` tightened against `t`. */
  ghost function TightenedBelow(g: Graph, d: seq<Dist>, t: nat, k: nat): seq<Dist>
    requires t < |d|
  {
    seq(|d|, x requires 0 <= x < |d| => if x < k then Tightened(g, d, t, x) else d[x])
  }

  /** Tightening position `k` of the partly tightened table extends it by one. */
  lemma TightenedBelowStep(g: Graph, d: seq<Dist>, t: nat, k: nat)
    requires t < |d| && k < |d|
    ensures TightenedBelow(g, d, t, k)[k := Tightened(g, TightenedBelow(g, d, t, k), t, k)]
      == TightenedBelow(g, d, t, k + 1)
  {
    var e := TightenedBelow(g, d, t, k);
    TightenedFacts(g, d, d, t, t);
    assert e[t] == d[t] && e[k] == d[k];
    TightenedFacts(g, e, d, t, k);
  }

  /** The fully tightened table is tightened everywhere and lies below the original. */
  lemma TightenedBelowAll(g: Graph, d: seq<Dist>, t: nat)
    requires t < |d|
    ensures forall x :: 0 <= x < |d| ==> TightenedBelow(g, d, t, |d|)[x] == Tightened(g, d, t, x)
    ensures Below(TightenedBelow(g, d, t, |d|), d)
  {
    forall x | 0 <= x < |d| ensures Leq(Tightened(g, d, t, x), d[x]) {
      TightenedFacts(g, d, d, t, x);
    }
  }

  /**
   * Seeding (my_policy.py:65-71): distance 0 and a place in the queue for
   * exactly the goal and absorbing states, infinity everywhere else.
   */
  method Seed(m: Mdp) returns (d: seq<Dist>, queue: seq<nat>)
    ensures |d| == |m.tag|
    ensures forall s :: 0 <= s < |d| ==> d[s] == if IsSeed(m, s) then Fin(0) else Inf
    ensures queue == SeedsBelow(m, |m.tag|)
  {
    d := seq(|m.tag|, _ => Inf);
    queue := [];
    var s := 0;
    while s < |m.tag|
      invariant s <= |m.tag| && |d| == |m.tag|
      invariant forall x :: 0 <= x < |d| ==> d[x] == if x < s && IsSeed(m, x) then Fin(0) else Inf
      invariant queue == SeedsBelow(m, s)
    {
      if IsSeed(m, s) {
        d := d[s := Fin(0)];
        queue := queue + [s];
      }
      s := s + 1;
    }
  }

  /** One of the first `i` moves of `s` leads to `t`. */
  ghost predicate MatchesBefore(m: Mdp, s: nat, t: nat, i: nat) {
    exists j :: 0 <= j < i && j < |Moves| && MostLikelySuccessor(m, s, Moves[j]) == t
  }

  /**
   * The moves of one state against the dequeued state `t`
   * (my_policy.py:76-82): a non-terminal `s` with a move whose most likely
   * successor is `t` is lowered to d[t] + 1 when that is strictly smaller,
   * and is then appended to the queue; a later move of `s` finds nothing more
   * to tighten.
   */
  method RelaxState(m: Mdp, ghost g: Graph, d0: seq<Dist>, queue0: seq<nat>, t: nat, s: nat)
    returns (d: seq<Dist>, queue: seq<nat>)
    requires IsSuccessorGraph(m, g)
    requires |d0| == |m.tag| && t < |d0| && s < |d0|
    ensures d == d0[s := Tightened(g, d0, t, s)]
    ensures queue == queue0 + if d[s] != d0[s] then [s] else []
  {
    d, queue := d0, queue0;
    var i := 0;
    while i < |Moves|
      invariant 0 <= i <= |Moves|
      invariant d == d0[s := if !m.isTerminal(s) && MatchesBefore(m, s, t, i) && Less(Plus1(d0[t]), d0[s])
                             then Plus1(d0[t]) else d0[s]]
      invariant queue == queue0 + if d[s] != d0[s] then [s] else []
    {
      var a := Moves[i];
      if !m.isTerminal(s) {
        if MostLikelySuccessor(m, s, a) == t && Less(Plus1(d[t]), d[s]) {
          d := d[s := Plus1(d[t])];
          queue := queue + [s];
        }
      }
      i := i + 1;
    }
    assert (!m.isTerminal(s) && MatchesBefore(m, s, t, |Moves|)) == Edge(g, s, t) by {
      assert g.next(s, Up) == MostLikelySuccessor(m, s, Moves[0]);
      assert g.next(s, Right) == MostLikelySuccessor(m, s, Moves[1]);
      assert g.next(s, Down) == MostLikelySuccessor(m, s, Moves[2]);
      assert g.next(s, Left) == MostLikelySuccessor(m, s, Moves[3]);
    }
  }

  /**
   * One pass of the relaxation loop body (my_policy.py:75-82): every state is
   * tightened against the dequeued state `t`, and exactly the states whose
   * distance strictly dropped are appended to the queue, in enumeration order.
   */
  method Scan(m: Mdp, ghost g: Graph, d0: seq<Dist>, queue0: seq<nat>, t: nat)
    returns (d: seq<Dist>, queue: seq<nat>)
    requires IsSuccessorGraph(m, g)
    requires |d0| == |m.tag| && t < |d0|
    ensures |d| == |d0|
    ensures forall x :: 0 <= x < |d| ==> d[x] == Tightened(g, d0, t, x)
    ensures Below(d, d0)
    ensures forall x :: 0 <= x < |d| && m.isTerminal(x) ==> d[x] == d0[x]
    ensures queue == queue0 + Changed(d0, d, |d|)
  {
    d, queue := d0, queue0;
    var s := 0;
    while s < |m.tag|
      invariant s <= |m.tag|
      invariant d == TightenedBelow(g, d0, t, s)
      invariant queue == queue0 + Changed(d0, d, s)
    {
      ghost var dRow := d;
      d, queue := RelaxState(m, g, d, queue, t, s);
      TightenedBelowStep(g, d0, t, s);
      ChangedBelow(d0, dRow, d, s);
      s := s + 1;
    }
    TightenedBelowAll(g, d0, t);
  }

  /** A scan against `t` keeps the closure of every state outside the queue. */
  lemma ScanKeepsClosure(g: Graph, d0: seq<Dist>, d: seq<Dist>, t: nat, rest: seq<nat>, queue: seq<nat>)
    requires |d0| == |g.seed| == |d| && t < |d0|
    requires forall x :: 0 <= x < |d| ==> d[x] == Tightened(g, d0, t, x)
    requires queue == rest + Changed(d0, d, |d|)
    requires forall s: nat, u: nat :: Edge(g, s, u) && u !in [t] + rest ==> Leq(d0[s], Plus1(d0[u]))
    ensures forall s: nat, u: nat :: Edge(g, s, u) && u !in queue ==> Leq(d[s], Plus1(d[u]))
  {
    assert d[t] == d0[t];
    ChangedExactly(d0, d, |d|);
    forall s: nat, u: nat | Edge(g, s, u) && u !in queue ensures Leq(d[s], Plus1(d[u])) {
      assert d[s] == Tightened(g, d0, t, s);
      if u == t {
        LeqTotal(Plus1(d0[t]), d0[s]);
      } else {
        assert u !in [t] + rest;
        assert Leq(d0[s], Plus1(d0[u]));
        assert u !in Changed(d0, d, |d|);
        assert d[u] == d0[u];
        assert Leq(d[s], d0[s]);
        LeqTrans(d[s], d0[s], Plus1(d0[u]));
      }
    }
  }

  /** After a scan against a state of finite distance, every queued state is finite. */
  lemma ScanQueueFinite(g: Graph, d0: seq<Dist>, d: seq<Dist>, t: nat, rest: seq<nat>, queue: seq<nat>)
    requires |d0| == |g.seed| == |d| && t < |d0|
    requires forall x :: 0 <= x < |d| ==> d[x] == Tightened(g, d0, t, x)
    requires queue == rest + Changed(d0, d, |d|)
    requires forall q: nat :: q in [t] + rest ==> q < |d0| && d0[q].Fin?
    ensures forall q: nat :: q in queue ==> q < |d| && d[q].Fin?
  {
    ChangedExactly(d0, d, |d|);
    forall q: nat | q in queue ensures q < |d| && d[q].Fin? {
      if q in rest {
        assert q in [t] + rest;
        assert d[q] == Tightened(g, d0, t, q);
      } else {
        assert q in Changed(d0, d, |d|);
      }
    }
  }

  /** The witness links after a scan against `t`: lowered states now link to `t`. */
  ghost function NextAfter(d0: seq<Dist>, d: seq<Dist>, next: seq<nat>, t: nat): seq<nat>
    requires |d0| == |d| == |next|
  {
    seq(|d|, x requires 0 <= x < |d| => if d[x] != d0[x] then t else next[x])
  }

  /**
   * A scan against a state `t` of finite distance keeps the seeds at 0, the
   * terminal non-seeds at infinity and the witness chain intact.
   */
  lemma ScanKeepsChain(g: Graph, d0: seq<Dist>, d: seq<Dist>, t: nat, next: seq<nat>)
    requires |d0| == |g.seed| == |d| && t < |d0| && d0[t].Fin?
    requires forall x :: 0 <= x < |d| ==> d[x] == Tightened(g, d0, t, x)
    requires Chained(g, d0, next)
    requires SeedsAtZero(g, d0)
    requires forall s :: 0 <= s < |d0| && g.terminal(s) && !g.seed[s] ==> d0[s] == Inf
    ensures Chained(g, d, NextAfter(d0, d, next, t))
    ensures SeedsAtZero(g, d)
    ensures forall s :: 0 <= s < |d| && g.terminal(s) && !g.seed[s] ==> d[s] == Inf
  {
    var next' := NextAfter(d0, d, next, t);
    assert d[t] == d0[t];
    forall s | 0 <= s < |d| && d[s].Fin? && d[s].hops > 0
      ensures Edge(g, s, next'[s]) && d[next'[s]].Fin? && d[next'[s]].hops < d[s].hops
    {
      if d[s] == d0[s] {
        var u := next[s];
        assert d[u] == Tightened(g, d0, t, u);
        assert Leq(d[u], d0[u]);
      }
    }
  }

  /**
   * What holds at the head of each round of the relaxation loop: queued
   * states are finite, seeds are at 0, terminal non-seeds are at infinity,
   * finite entries are witnessed by a chain, and every edge into a state
   * outside the queue is already tight.
   */
  ghost predicate RelaxInv(g: Graph, d: seq<Dist>, queue: seq<nat>, next: seq<nat>) {
    |d| == |g.seed| && |next| == |d| &&
    (forall q: nat :: q in queue ==> q < |d| && d[q].Fin?) &&
    SeedsAtZero(g, d) &&
    (forall s :: 0 <= s < |d| && g.terminal(s) && !g.seed[s] ==> d[s] == Inf) &&
    Chained(g, d, next) &&
    (forall s: nat, u: nat :: Edge(g, s, u) && u !in queue ==> Leq(d[s], Plus1(d[u])))
  }

  /** The seeding establishes the loop invariant. */
  lemma SeedEstablishes(g: Graph, d: seq<Dist>, queue: seq<nat>)
    requires |d| == |g.seed|
    requires forall s :: 0 <= s < |d| ==> d[s] == if g.seed[s] then Fin(0) else Inf
    requires forall s: nat :: s in queue <==> s < |d| && g.seed[s]
    ensures RelaxInv(g, d, queue, seq(|d|, _ => 0))
  {
    forall s: nat, u: nat | Edge(g, s, u) && u !in queue ensures Leq(d[s], Plus1(d[u])) {
      assert d[u] == Inf;
    }
  }

  /**
   * One round of the loop keeps the invariant and strictly decreases the
   * termination measure (CountInf, SumFin, |queue|).
   */
  lemma RoundKeeps(g: Graph, d0: seq<Dist>, q0: seq<nat>, next: seq<nat>, d: seq<Dist>, queue: seq<nat>)
    requires |q0| > 0 && RelaxInv(g, d0, q0, next) && q0[0] < |d0|
    requires |d| == |d0| && forall x :: 0 <= x < |d| ==> d[x] == Tightened(g, d0, q0[0], x)
    requires Below(d, d0)
    requires queue == q0[1..] + Changed(d0, d, |d|)
    ensures RelaxInv(g, d, queue, NextAfter(d0, d, next, q0[0]))
    ensures CountInf(d) < CountInf(d0) ||
      (CountInf(d) == CountInf(d0) && SumFin(d) < SumFin(d0)) ||
      (CountInf(d) == CountInf(d0) && SumFin(d) == SumFin(d0) && |queue| < |q0|)
  {
    var t, rest := q0[0], q0[1..];
    assert t in q0;
    assert q0 == [t] + rest;
    ScanKeepsClosure(g, d0, d, t, rest, queue);
    ScanQueueFinite(g, d0, d, t, rest, queue);
    ScanKeepsChain(g, d0, d, t, next);
    BelowDecreases(d, d0);
    if d == d0 {
      ChangedNone(d0, |d|);
    }
  }

  /**
   * The relaxation (my_policy.py:65-82). On exit the table is the table of
   * shortest hop counts to a goal or absorbing state in the
   * most-likely-successor graph; exactly the seeds are at 0, terminal
   * non-seeds (holes) stay at infinity, and the table is a fixed point of the
   * relaxation step along each of the four moves.
   */
  method Relax(m: Mdp) returns (d: seq<Dist>)
    ensures |d| == |m.tag|
    ensures forall s :: 0 <= s < |d| ==> (d[s] == Fin(0) <==> IsSeed(m, s))
    ensures forall s :: 0 <= s < |d| && m.isTerminal(s) && !IsSeed(m, s) ==> d[s] == Inf
    ensures Closed(SuccessorGraph(m), d)
    ensures IsShortest(SuccessorGraph(m), d)
  {
    ghost var g := SuccessorGraph(m);
    var queue: seq<nat>;
    d, queue := Seed(m);
    ghost var next: seq<nat> := seq(|d|, _ => 0);
    SeedsBelowExactly(m, |m.tag|);
    SeedEstablishes(g, d, queue);
    while queue != []
      invariant RelaxInv(g, d, queue, next)
      decreases CountInf(d), SumFin(d), |queue|
    {
      var t := queue[0];
      ghost var d0, q0 := d, queue;
      assert t in q0;
      queue := queue[1..];
      d, queue := Scan(m, g, d, queue, t);
      RoundKeeps(g, d0, q0, next, d, queue);
      next := NextAfter(d0, d, next, t);
    }
    FixedPointIsShortest(g, d, next);
  }
}
