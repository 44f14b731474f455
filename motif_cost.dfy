/**
 * How many pairs of a pair list are motif pairs, counted one pair at a time, and the
 * cost derived from that count.
 */
module MotifCost {
  import opened Adjacency
  import opened NodePairs

  /** Cost of a graph before any motif is found. */
  const BASE_COST: nat := 1000
  /** What each motif pair takes off the cost. */
  const MOTIF_WEIGHT: nat := 10

  /** Both ids of every pair name a node of an n-node graph. */
  predicate PairsInRange(pairs: seq<Pair>, n: nat) {
    forall k :: 0 <= k < |pairs| ==> pairs[k].0 < n && pairs[k].1 < n
  }

  /** The positions of the pair list that hold a motif pair. */
  ghost function MotifPairIndices(adj: Adj, pairs: seq<Pair>): set<nat>
    requires PairsInRange(pairs, |adj|)
  {
    set k: nat | k < |pairs| && IsMotifPair(adj, pairs[k].0, pairs[k].1)
  }

  /** The motif pairs of the list, counted from the first pair to the last. */
  ghost function CountMotifPairs(adj: Adj, pairs: seq<Pair>): nat
    requires PairsInRange(pairs, |adj|)
    decreases |pairs|
  {
    if pairs == [] then 0
    else
      var n := |pairs| - 1;
      CountMotifPairs(adj, pairs[..n]) + if IsMotifPair(adj, pairs[n].0, pairs[n].1) then 1 else 0
  }

  /** Counting pair by pair gives the number of motif positions, which is at most the list length. */
  lemma {:induction false} CountIsCardinality(adj: Adj, pairs: seq<Pair>)
    requires PairsInRange(pairs, |adj|)
    ensures CountMotifPairs(adj, pairs) == |MotifPairIndices(adj, pairs)|
    ensures CountMotifPairs(adj, pairs) <= |pairs|
    decreases |pairs|
  {
    if pairs != [] {
      var n := |pairs| - 1;
      CountIsCardinality(adj, pairs[..n]);
      var before, after := MotifPairIndices(adj, pairs[..n]), MotifPairIndices(adj, pairs);
      if IsMotifPair(adj, pairs[n].0, pairs[n].1) {
        assert after == before + {n};
      } else {
        assert after == before;
      }
    }
  }

  /**
   * With the base cost of 1000 and the 36 pairs of a nine-node graph, subtracting ten per
   * motif pair never goes below zero and the cost lies in [640, 1000].
   */
  lemma CostRange(adj: Adj)
    requires |adj| == NODES
    ensures PairsInRange(ReferencePairs(), |adj|)
    ensures MOTIF_WEIGHT * CountMotifPairs(adj, ReferencePairs()) <= BASE_COST
    ensures 640 <= BASE_COST - MOTIF_WEIGHT * CountMotifPairs(adj, ReferencePairs()) <= BASE_COST
  {
    NinePairs();
    assert ReferencePairs() == AllPairs(NODES);
    AllPairsInRange(NODES);
    CountIsCardinality(adj, ReferencePairs());
  }
}
