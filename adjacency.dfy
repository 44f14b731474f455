/**
 * Undirected graphs over the dense ids 0 .. n-1, given as one neighbour set per id,
 * and the two structural motifs the cost function rewards.
 */
module Adjacency {

  /** adj[i] is the neighbour set of node i. */
  type Adj = seq<set<nat>>

  /** Every neighbour id names a node of the graph. */
  ghost predicate InRange(adj: Adj) {
    forall i, x :: 0 <= i < |adj| && x in adj[i] ==> x < |adj|
  }

  /** j is a neighbour of i exactly when i is a neighbour of j. */
  ghost predicate Symmetric(adj: Adj) {
    forall i, j :: 0 <= i < |adj| && 0 <= j < |adj| ==> (j in adj[i] <==> i in adj[j])
  }

  /** No node is its own neighbour. */
  ghost predicate NoSelfLoops(adj: Adj) {
    forall i :: 0 <= i < |adj| ==> i !in adj[i]
  }

  /** No node has more than k neighbours. */
  ghost predicate DegreeAtMost(adj: Adj, k: nat) {
    forall i :: 0 <= i < |adj| ==> |adj[i]| <= k
  }

  /** Every node has exactly k neighbours. */
  ghost predicate Regular(adj: Adj, k: nat) {
    forall i :: 0 <= i < |adj| ==> |adj[i]| == k
  }

  /** A simple undirected graph whose degrees are bounded by k. */
  ghost predicate WellFormed(adj: Adj, k: nat) {
    InRange(adj) && Symmetric(adj) && NoSelfLoops(adj) && DegreeAtMost(adj, k)
  }

  /** Every node has lost all its neighbours; the node count is kept. */
  function Cleared(adj: Adj): (r: Adj)
    ensures |r| == |adj|
    ensures forall i :: 0 <= i < |r| ==> r[i] == {}
  {
    seq(|adj|, i => {})
  }

  /** The nodes adjacent to both i and j. */
  function CommonNeighbours(adj: Adj, i: nat, j: nat): set<nat>
    requires i < |adj| && j < |adj|
  {
    adj[i] * adj[j]
  }

  /** Triangle motif: i and j are connected and share exactly one neighbour. */
  ghost predicate IsTriangleMotif(adj: Adj, i: nat, j: nat)
    requires i < |adj| && j < |adj|
  {
    j in adj[i] && |CommonNeighbours(adj, i, j)| == 1
  }

  /** Square motif: i and j are not connected and share exactly two neighbours. */
  ghost predicate IsSquareMotif(adj: Adj, i: nat, j: nat)
    requires i < |adj| && j < |adj|
  {
    j !in adj[i] && |CommonNeighbours(adj, i, j)| == 2
  }

  /** A pair the cost function rewards. */
  ghost predicate IsMotifPair(adj: Adj, i: nat, j: nat)
    requires i < |adj| && j < |adj|
  {
    IsTriangleMotif(adj, i, j) || IsSquareMotif(adj, i, j)
  }

  /** On a symmetric graph the classification does not depend on the order of the pair. */
  lemma MotifPairSymmetric(adj: Adj, i: nat, j: nat)
    requires Symmetric(adj) && i < |adj| && j < |adj|
    ensures IsTriangleMotif(adj, i, j) == IsTriangleMotif(adj, j, i)
    ensures IsSquareMotif(adj, i, j) == IsSquareMotif(adj, j, i)
    ensures IsMotifPair(adj, i, j) == IsMotifPair(adj, j, i)
  {
    assert CommonNeighbours(adj, i, j) == CommonNeighbours(adj, j, i);
  }

  /** The two motifs never hold of the same pair. */
  lemma MotifsExclusive(adj: Adj, i: nat, j: nat)
    requires i < |adj| && j < |adj|
    ensures !(IsTriangleMotif(adj, i, j) && IsSquareMotif(adj, i, j))
  {
  }

  /** Common neighbours are bounded by either endpoint's degree. */
  lemma CommonNeighboursBounded(adj: Adj, i: nat, j: nat)
    requires i < |adj| && j < |adj|
    ensures |CommonNeighbours(adj, i, j)| <= |adj[i]|
    ensures |CommonNeighbours(adj, i, j)| <= |adj[j]|
  {
    SubsetCard(CommonNeighbours(adj, i, j), adj[i]);
    SubsetCard(CommonNeighbours(adj, i, j), adj[j]);
  }

  /** A subset is no larger than its superset. */
  lemma SubsetCard<T>(a: set<T>, b: set<T>)
    requires a <= b
    ensures |a| <= |b|
  {
    assert b == a + (b - a);
  }

  /** Appending a node without neighbours keeps a graph well formed. */
  lemma AppendIsolated(adj: Adj, k: nat)
    requires WellFormed(adj, k)
    ensures WellFormed(adj + [{}], k)
  {
    var b := adj + [{}];
    forall i, x | 0 <= i < |b| && x in b[i] ensures x < |b| {
      assert i < |adj| && b[i] == adj[i];
    }
    forall i, j | 0 <= i < |b| && 0 <= j < |b| ensures j in b[i] <==> i in b[j] {
      if i < |adj| && j < |adj| {
        assert b[i] == adj[i] && b[j] == adj[j];
      }
    }
  }

  /** The 4-cycle 0-1-2-3-0, every node of degree 2. */
  function FourCycle(): (adj: Adj)
    ensures |adj| == 4
  {
    [{1, 3}, {0, 2}, {1, 3}, {0, 2}]
  }

  /**
   * On the 4-cycle the opposite corners 0 and 2 form a square motif, while the
   * connected pair 0, 1 has no common neighbour and forms neither motif.
   */
  lemma FourCycleMotifs()
    ensures WellFormed(FourCycle(), 2) && Regular(FourCycle(), 2)
    ensures IsSquareMotif(FourCycle(), 0, 2)
    ensures !IsMotifPair(FourCycle(), 0, 1)
  {
    var adj := FourCycle();
    assert |{1, 3}| == 2 && |{0, 2}| == 2;
    assert CommonNeighbours(adj, 0, 2) == {1, 3};
    assert CommonNeighbours(adj, 0, 1) == {};
  }
}
