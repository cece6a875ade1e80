/**
 * Hop distances with an infinite element, compared as Python compares
 * integers with math.inf: inf + 1 == inf, inf == inf, every finite value is
 * smaller than inf, and inf is smaller than nothing.
 */
module Distance {

  datatype Dist = Fin(hops: nat) | Inf

  function Plus1(x: Dist): Dist {
    match x
    case Fin(k) => Fin(k + 1)
    case Inf => Inf
  }

  /** Strict comparison, `x < y`. */
  predicate Less(x: Dist, y: Dist) {
    match x
    case Inf => false
    case Fin(a) => y.Inf? || a < y.hops
  }

  predicate Leq(x: Dist, y: Dist) {
    x == y || Less(x, y)
  }

  lemma LeqTotal(x: Dist, y: Dist)
    ensures !Less(x, y) ==> Leq(y, x)
  {
  }

  lemma LeqTrans(x: Dist, y: Dist, z: Dist)
    ensures Leq(x, y) && Leq(y, z) ==> Leq(x, z)
  {
  }

  /** Pointwise: no entry of `d` is larger than the matching entry of `e`. */
  ghost predicate Below(d: seq<Dist>, e: seq<Dist>) {
    |d| == |e| && forall i :: 0 <= i < |d| ==> Leq(d[i], e[i])
  }

  /** Number of infinite entries. */
  function CountInf(d: seq<Dist>): nat {
    if d == [] then 0 else (if d[0].Inf? then 1 else 0) + CountInf(d[1..])
  }

  /** Sum of the finite entries. */
  function SumFin(d: seq<Dist>): nat {
    if d == [] then 0 else (if d[0].Fin? then d[0].hops else 0) + SumFin(d[1..])
  }

  /**
   * Lowering entries of a distance table, and changing at least one, strictly
   * decreases the pair (CountInf, SumFin) in lexicographic order: an entry that
   * turns finite lowers the first component, and otherwise the set of
   * infinite entries is unchanged and the finite sum drops.
   */
  lemma {:induction false} BelowDecreases(d: seq<Dist>, e: seq<Dist>)
    requires Below(d, e)
    ensures CountInf(d) <= CountInf(e)
    ensures CountInf(d) == CountInf(e) ==> SumFin(d) <= SumFin(e)
    ensures d != e ==>
      CountInf(d) < CountInf(e) || (CountInf(d) == CountInf(e) && SumFin(d) < SumFin(e))
  {
    if d != [] {
      assert Below(d[1..], e[1..]) by {
        forall i | 0 <= i < |d| - 1 ensures Leq(d[1..][i], e[1..][i]) {
          assert d[1..][i] == d[i + 1];
        }
      }
      BelowDecreases(d[1..], e[1..]);
      assert Leq(d[0], e[0]);
      if d != e {
        assert d == [d[0]] + d[1..] && e == [e[0]] + e[1..];
      }
    }
  }
}
