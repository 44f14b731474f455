/**
 * The degree-capped greedy construction of solver/src/main.rs as functions on values:
 * one step tries to join two nodes, a walk runs the steps of one node over its shuffled
 * candidate list, a pass runs the walks of all nodes, and the initialisation repeats
 * passes (clearing every neighbour set after a failed one) until the graph is regular.
 */
module GreedyPass {
  import opened Adjacency

  /** Target degree checked after each pass. */
  const EDGES: nat := 4
  /** Degree at which the pass stops adding edges to a node (a literal in the pass). */
  const DEGREE_CAP: nat := 4

  /** The adjacency and the log of every edge the passes have added. */
  datatype PassState = PassState(adj: Adj, edges: seq<(nat, nat)>)

  /** The other node ids, in the order of `ids`. */
  function Others(ids: seq<nat>, t: nat): (r: seq<nat>)
    ensures forall x :: x in r <==> x in ids && x != t
  {
    if ids == [] then []
    else if ids[0] == t then Others(ids[1..], t)
    else [ids[0]] + Others(ids[1..], t)
  }

  /** `order` is a shuffle of `base`: the same ids with the same multiplicities. */
  predicate IsShuffleOf(order: seq<nat>, base: seq<nat>) {
    multiset(order) == multiset(base)
  }

  /** One shuffled candidate list per entry of `ids`, as the pass draws them. */
  predicate ShufflesFor(ids: seq<nat>, orders: seq<seq<nat>>) {
    |orders| == |ids| && forall k :: 0 <= k < |ids| ==> IsShuffleOf(orders[k], Others(ids, ids[k]))
  }

  /** The ids are exactly `0 .. n-1` in order. */
  predicate IsRange(ids: seq<nat>, n: nat) {
    |ids| == n && forall k :: 0 <= k < n ==> ids[k] == k
  }

  /** What one pass needs of its inputs: node ids and candidates name nodes of an n-node graph. */
  predicate PassInputs(n: nat, ids: seq<nat>, orders: seq<seq<nat>>) {
    && |orders| == |ids|
    && (forall k :: 0 <= k < |ids| ==> ids[k] < n)
    && (forall k, m :: 0 <= k < |orders| && 0 <= m < |orders[k]| ==> orders[k][m] < n)
  }

  /** Connect `t` and `p` unless one of them already has DEGREE_CAP neighbours. */
  function Step(s: PassState, t: nat, p: nat): (r: PassState)
    requires t < |s.adj| && p < |s.adj|
    ensures |r.adj| == |s.adj|
  {
    if |s.adj[p]| >= DEGREE_CAP || |s.adj[t]| >= DEGREE_CAP then s
    else PassState(s.adj[p := s.adj[p] + {t}][t := s.adj[t] + {p}], s.edges + [(t, p)])
  }

  /** The steps of node `t` over the candidates in `order`, first to last. */
  function Walk(s: PassState, t: nat, order: seq<nat>): (r: PassState)
    requires t < |s.adj| && forall m :: 0 <= m < |order| ==> order[m] < |s.adj|
    ensures |r.adj| == |s.adj|
    decreases |order|
  {
    if order == [] then s
    else Step(Walk(s, t, order[..|order| - 1]), t, order[|order| - 1])
  }

  /** The walks of every node of `ids`, each over its own candidate list. */
  function Pass(s: PassState, ids: seq<nat>, orders: seq<seq<nat>>): (r: PassState)
    requires PassInputs(|s.adj|, ids, orders)
    ensures |r.adj| == |s.adj|
    decreases |ids|
  {
    if ids == [] then s
    else
      var n := |ids| - 1;
      Walk(Pass(s, ids[..n], orders[..n]), ids[n], orders[n])
  }


  /**
   * Passes over the candidate lists of `rounds`, one round per pass, until a pass leaves
   * every node with EDGES neighbours. The flag says whether that happened before the
   * rounds ran out; a failed pass clears every neighbour set but keeps the edge log.
   */
  ghost function Initialise(s: PassState, ids: seq<nat>, rounds: seq<seq<seq<nat>>>): (r: (PassState, bool))
    requires forall q :: 0 <= q < |rounds| ==> PassInputs(|s.adj|, ids, rounds[q])
    ensures |r.0.adj| == |s.adj|
    decreases |rounds|
  {
    if rounds == [] then (s, false)
    else
      var p := Pass(s, ids, rounds[0]);
      if Regular(p.adj, EDGES) then (p, true)
      else Initialise(PassState(Cleared(p.adj), p.edges), ids, rounds[1..])
  }

  /** Walking one more candidate is one more step. */
  lemma WalkExtend(s: PassState, t: nat, order: seq<nat>, m: nat)
    requires t < |s.adj| && m < |order| && forall i :: 0 <= i < |order| ==> order[i] < |s.adj|
    ensures Walk(s, t, order[..m + 1]) == Step(Walk(s, t, order[..m]), t, order[m])
  {
    assert order[..m + 1][..m] == order[..m];
  }

  /** A prefix of valid pass inputs is valid. */
  lemma PassPrefix(s: PassState, ids: seq<nat>, orders: seq<seq<nat>>, k: nat)
    requires PassInputs(|s.adj|, ids, orders) && k <= |ids|
    ensures PassInputs(|s.adj|, ids[..k], orders[..k])
  {
  }

  /** Running the pass for one more node is one more walk. */
  lemma PassExtend(s: PassState, ids: seq<nat>, orders: seq<seq<nat>>, k: nat)
    requires PassInputs(|s.adj|, ids, orders) && k < |ids|
    ensures PassInputs(|s.adj|, ids[..k + 1], orders[..k + 1])
    ensures Pass(s, ids[..k + 1], orders[..k + 1]) == Walk(Pass(s, ids[..k], orders[..k]), ids[k], orders[k])
  {
    assert ids[..k + 1][..k] == ids[..k] && orders[..k + 1][..k] == orders[..k];
  }

  /** Clearing every neighbour set leaves a well-formed graph. */
  lemma ClearedWellFormed(adj: Adj, k: nat)
    ensures WellFormed(Cleared(adj), k)
  {
  }

  /** One round of the initialisation: a successful pass stops it, a failed one clears and goes on. */
  lemma InitialiseUnfold(s: PassState, ids: seq<nat>, rounds: seq<seq<seq<nat>>>, r: nat)
    requires r < |rounds| && forall q :: 0 <= q < |rounds| ==> PassInputs(|s.adj|, ids, rounds[q])
    ensures PassInputs(|s.adj|, ids, rounds[r])
    ensures Regular(Pass(s, ids, rounds[r]).adj, EDGES) ==>
      Initialise(s, ids, rounds[r..]) == (Pass(s, ids, rounds[r]), true)
    ensures !Regular(Pass(s, ids, rounds[r]).adj, EDGES) ==>
      var p := Pass(s, ids, rounds[r]);
      Initialise(s, ids, rounds[r..]) == Initialise(PassState(Cleared(p.adj), p.edges), ids, rounds[r + 1..])
  {
    assert rounds[r..][0] == rounds[r] && rounds[r..][1..] == rounds[r + 1..];
  }

  // ---------------------------------------------------------------------------------
  // What a step, a walk and a pass preserve.

  /** A step keeps the graph simple and symmetric, and never raises a degree above the cap. */
  lemma StepPreserves(s: PassState, t: nat, p: nat)
    requires t < |s.adj| && p < |s.adj| && t != p
    requires WellFormed(s.adj, DEGREE_CAP)
    ensures WellFormed(Step(s, t, p).adj, DEGREE_CAP)
    ensures forall i :: 0 <= i < |s.adj| ==> s.adj[i] <= Step(s, t, p).adj[i]
    ensures |Step(s, t, p).edges| >= |s.edges| && Step(s, t, p).edges[..|s.edges|] == s.edges
  {
    if !(|s.adj[p]| >= DEGREE_CAP || |s.adj[t]| >= DEGREE_CAP) {
      var a := Step(s, t, p).adj;
      assert a[t] == s.adj[t] + {p} && a[p] == s.adj[p] + {t};
      assert |a[t]| <= |s.adj[t]| + 1 && |a[p]| <= |s.adj[p]| + 1;
      assert forall i :: 0 <= i < |a| && i != t && i != p ==> a[i] == s.adj[i];
    }
  }

  /** Every node the walk of `t` has visited is a neighbour of `t`, or one of the two is full. */
  ghost predicate Saturated(adj: Adj, t: nat, order: seq<nat>)
    requires t < |adj| && forall m :: 0 <= m < |order| ==> order[m] < |adj|
  {
    forall m :: 0 <= m < |order| ==>
      order[m] in adj[t] || |adj[order[m]]| >= DEGREE_CAP || |adj[t]| >= DEGREE_CAP
  }

  lemma {:induction false} WalkPreserves(s: PassState, t: nat, order: seq<nat>)
    requires t < |s.adj| && forall m :: 0 <= m < |order| ==> order[m] < |s.adj| && order[m] != t
    requires WellFormed(s.adj, DEGREE_CAP)
    ensures WellFormed(Walk(s, t, order).adj, DEGREE_CAP)
    ensures forall i :: 0 <= i < |s.adj| ==> s.adj[i] <= Walk(s, t, order).adj[i]
    ensures |Walk(s, t, order).edges| >= |s.edges| && Walk(s, t, order).edges[..|s.edges|] == s.edges
    ensures Saturated(Walk(s, t, order).adj, t, order)
    decreases |order|
  {
    if order != [] {
      var front, last := order[..|order| - 1], order[|order| - 1];
      WalkPreserves(s, t, front);
      var w := Walk(s, t, front);
      StepPreserves(w, t, last);
      var r := Step(w, t, last);
      assert r == Walk(s, t, order);
      forall m | 0 <= m < |order|
        ensures order[m] in r.adj[t] || |r.adj[order[m]]| >= DEGREE_CAP || |r.adj[t]| >= DEGREE_CAP
      {
        if m < |front| {
          assert order[m] == front[m];
          SubsetCard(w.adj[order[m]], r.adj[order[m]]);
          SubsetCard(w.adj[t], r.adj[t]);
        }
      }
    }
  }

  lemma {:induction false} PassPreserves(s: PassState, ids: seq<nat>, orders: seq<seq<nat>>)
    requires PassInputs(|s.adj|, ids, orders)
    requires forall k, m :: 0 <= k < |orders| && 0 <= m < |orders[k]| ==> orders[k][m] != ids[k]
    requires WellFormed(s.adj, DEGREE_CAP)
    ensures WellFormed(Pass(s, ids, orders).adj, DEGREE_CAP)
    ensures |Pass(s, ids, orders).edges| >= |s.edges| && Pass(s, ids, orders).edges[..|s.edges|] == s.edges
    decreases |ids|
  {
    if ids != [] {
      var n := |ids| - 1;
      PassPreserves(s, ids[..n], orders[..n]);
      var p := Pass(s, ids[..n], orders[..n]);
      WalkPreserves(p, ids[n], orders[n]);
    }
  }

  /** Shuffled candidate lists over `0 .. n-1` are valid inputs to a pass and never name the walking node. */
  lemma ShufflesAreInputs(s: PassState, ids: seq<nat>, orders: seq<seq<nat>>)
    requires IsRange(ids, |s.adj|) && ShufflesFor(ids, orders)
    ensures PassInputs(|s.adj|, ids, orders)
    ensures forall k, m :: 0 <= k < |orders| && 0 <= m < |orders[k]| ==> orders[k][m] != ids[k]
  {
    forall k, m | 0 <= k < |orders| && 0 <= m < |orders[k]|
      ensures orders[k][m] < |s.adj| && orders[k][m] != ids[k]
    {
      var x := orders[k][m];
      assert x in multiset(orders[k]);
      assert x in Others(ids, ids[k]);
    }
  }

  /**
   * A full pass over shuffles of `0 .. n-1` keeps the graph simple and symmetric with every
   * degree at most the cap, and only appends to the edge log.
   */
  lemma PassKeepsInvariants(s: PassState, ids: seq<nat>, orders: seq<seq<nat>>)
    requires IsRange(ids, |s.adj|) && ShufflesFor(ids, orders)
    requires WellFormed(s.adj, DEGREE_CAP)
    ensures PassInputs(|s.adj|, ids, orders)
    ensures WellFormed(Pass(s, ids, orders).adj, DEGREE_CAP)
    ensures |Pass(s, ids, orders).edges| >= |s.edges| && Pass(s, ids, orders).edges[..|s.edges|] == s.edges
  {
    ShufflesAreInputs(s, ids, orders);
    PassPreserves(s, ids, orders);
  }

  /**
   * When the initialisation reports success, the graph is simple, symmetric and
   * EDGES-regular; whatever the outcome, the edge log is only ever extended.
   */
  lemma {:induction false} InitialiseCorrect(s: PassState, ids: seq<nat>, rounds: seq<seq<seq<nat>>>)
    requires IsRange(ids, |s.adj|)
    requires forall q :: 0 <= q < |rounds| ==> ShufflesFor(ids, rounds[q])
    requires WellFormed(s.adj, DEGREE_CAP)
    ensures forall q :: 0 <= q < |rounds| ==> PassInputs(|s.adj|, ids, rounds[q])
    ensures WellFormed(Initialise(s, ids, rounds).0.adj, DEGREE_CAP)
    ensures Initialise(s, ids, rounds).1 ==> Regular(Initialise(s, ids, rounds).0.adj, EDGES)
    ensures Initialise(s, ids, rounds).1 ==> Symmetric(Initialise(s, ids, rounds).0.adj)
    ensures Initialise(s, ids, rounds).1 ==> NoSelfLoops(Initialise(s, ids, rounds).0.adj)
    ensures !Initialise(s, ids, rounds).1 && rounds != [] ==> Initialise(s, ids, rounds).0.adj == Cleared(s.adj)
    ensures |Initialise(s, ids, rounds).0.edges| >= |s.edges|
    ensures Initialise(s, ids, rounds).0.edges[..|s.edges|] == s.edges
    decreases |rounds|
  {
    forall q | 0 <= q < |rounds| ensures PassInputs(|s.adj|, ids, rounds[q]) {
      ShufflesAreInputs(s, ids, rounds[q]);
    }
    if rounds != [] {
      PassKeepsInvariants(s, ids, rounds[0]);
      var p := Pass(s, ids, rounds[0]);
      if !Regular(p.adj, EDGES) {
        var c := PassState(Cleared(p.adj), p.edges);
        assert Cleared(p.adj) == Cleared(s.adj);
        assert forall q :: 0 <= q < |rounds[1..]| ==> rounds[1..][q] == rounds[q + 1];
        InitialiseCorrect(c, ids, rounds[1..]);
        var r := Initialise(c, ids, rounds[1..]);
        assert r.0.edges[..|p.edges|] == p.edges;
        assert r.0.edges[..|s.edges|] == p.edges[..|s.edges|];
        if rounds[1..] == [] {
          assert r.0 == c;
        }
      }
    }
  }
}
