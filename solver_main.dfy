/**
 * The graph, its nodes and the cost evaluator of solver/src/main.rs, as classes whose
 * methods update the neighbour sets in place. Each mutating method is specified by the
 * value-level functions of GreedyPass; the cost functions by MotifCost.
 */
module SolverMain {
  import opened Adjacency
  import opened NodePairs
  import opened GreedyPass
  import opened MotifCost

  /** A node: its id and the set of ids it is connected to. */
  class Node {
    const id: nat
    var connections: set<nat>

    constructor (id: nat)
      ensures this.id == id && connections == {}
    {
      this.id := id;
      connections := {};
    }

    method AddConnection(nodeId: nat)
      modifies this
      ensures connections == old(connections) + {nodeId}
    {
      connections := connections + {nodeId};
    }

    method RemoveConnection(nodeId: nat)
      modifies this
      ensures connections == old(connections) - {nodeId}
    {
      connections := connections - {nodeId};
    }

    method Reset()
      modifies this
      ensures connections == {}
    {
      connections := {};
    }
  }

  /**
   * The nodes in a vector indexed by id, the ids in the order they were added, the log of
   * edges the construction has added, and the precomputed pair list.
   */
  class Graph {
    var nodes: seq<Node>
    var nodeIds: seq<nat>
    var edges: seq<(nat, nat)>
    const nodePairs: seq<Pair>

    /** The neighbour sets, node by node. */
    ghost function Adj(): (a: Adj)
      reads this, nodes
      ensures |a| == |nodes|
      ensures forall i :: 0 <= i < |nodes| ==> a[i] == nodes[i].connections
    {
      seq(|nodes|, i reads this, nodes requires 0 <= i < |nodes| => nodes[i].connections)
    }

    ghost function State(): PassState
      reads this, nodes
    {
      PassState(Adj(), edges)
    }

    /** Node i sits at index i and the id list is `0 .. n-1`; so no node is stored twice. */
    ghost predicate Indexed()
      reads this, nodes
    {
      IsRange(nodeIds, |nodes|) && forall i :: 0 <= i < |nodes| ==> nodes[i].id == i
    }

    ghost predicate Valid()
      reads this, nodes
    {
      Indexed() && WellFormed(Adj(), DEGREE_CAP) && nodePairs == ReferencePairs()
    }

    constructor ()
      ensures nodes == [] && nodeIds == [] && edges == []
      ensures nodePairs == ReferencePairs()
      ensures Valid()
    {
      nodes := [];
      nodeIds := [];
      edges := [];
      nodePairs := ReferencePairs();
    }

    /** Inserts the node at index `node.id` (shifting later nodes up) and records its id. */
    method AddNode(node: Node)
      requires node.id <= |nodes| && node !in nodes
      modifies this
      ensures nodes == old(nodes[..node.id]) + [node] + old(nodes[node.id..])
      ensures nodeIds == old(nodeIds) + [node.id]
      ensures edges == old(edges)
      ensures old(Valid()) && node.id == old(|nodes|) && node.connections == {} ==> Valid()
    {
      ghost var before := Adj();
      nodes := nodes[..node.id] + [node] + nodes[node.id..];
      nodeIds := nodeIds + [node.id];
      if old(Valid()) && node.id == old(|nodes|) && node.connections == {} {
        assert nodes == old(nodes) + [node];
        assert Adj() == before + [{}];
        AppendIsolated(before, DEGREE_CAP);
      }
    }

    /** Connects `t` and `p` in both neighbour sets and logs the edge, unless one of them is full. */
    method TryConnect(t: nat, p: nat)
      requires Indexed() && t < |nodes| && p < |nodes|
      modifies nodes
      modifies this`edges
      ensures nodes == old(nodes) && nodeIds == old(nodeIds) && Indexed()
      ensures State() == Step(old(State()), t, p)
    {
      if |nodes[p].connections| >= DEGREE_CAP || |nodes[t].connections| >= DEGREE_CAP {
        return;
      }
      ghost var a := Adj();
      nodes[p].AddConnection(t);
      nodes[t].AddConnection(p);
      edges := edges + [(t, p)];
      forall i | 0 <= i < |nodes|
        ensures Adj()[i] == a[p := a[p] + {t}][t := a[t] + {p}][i]
      {
        if i != p && i != t {
          assert nodes[i].id != nodes[p].id && nodes[i].id != nodes[t].id;
        }
      }
    }

    /** The inner loop of the pass: node `t` walks its shuffled candidate list. */
    method WalkNode(t: nat, order: seq<nat>)
      requires Indexed() && t < |nodes|
      requires forall m :: 0 <= m < |order| ==> order[m] < |nodes|
      modifies nodes
      modifies this`edges
      ensures nodes == old(nodes) && nodeIds == old(nodeIds) && Indexed()
      ensures State() == Walk(old(State()), t, order)
    {
      var m := 0;
      while m < |order|
        invariant 0 <= m <= |order|
        invariant nodes == old(nodes) && nodeIds == old(nodeIds) && Indexed()
        invariant State() == Walk(old(State()), t, order[..m])
      {
        WalkExtend(old(State()), t, order, m);
        TryConnect(t, order[m]);
        m := m + 1;
      }
      assert order[..m] == order;
    }

    /**
     * One greedy pass: for every node in id order, walk its shuffled list of the other ids
     * and connect the two nodes unless one of them already has DEGREE_CAP neighbours.
     * `orders[k]` is the shuffle drawn for node `nodeIds[k]`.
     */
    method SolnInitialiser(orders: seq<seq<nat>>)
      requires Valid() && ShufflesFor(nodeIds, orders)
      modifies nodes
      modifies this`edges
      ensures nodes == old(nodes) && nodeIds == old(nodeIds)
      ensures PassInputs(|old(nodes)|, nodeIds, orders)
      ensures State() == Pass(old(State()), nodeIds, orders)
      ensures Valid()
    {
      ghost var s0 := State();
      PassKeepsInvariants(s0, nodeIds, orders);
      PassPrefix(s0, nodeIds, orders, 0);
      var k := 0;
      while k < |nodeIds|
        invariant 0 <= k <= |nodeIds|
        invariant nodes == old(nodes) && nodeIds == old(nodeIds) && Indexed()
        invariant PassInputs(|s0.adj|, nodeIds[..k], orders[..k])
        invariant State() == Pass(s0, nodeIds[..k], orders[..k])
      {
        PassExtend(s0, nodeIds, orders, k);
        WalkNode(nodeIds[k], orders[k]);
        k := k + 1;
      }
      assert nodeIds[..k] == nodeIds && orders[..k] == orders;
      assert Adj() == Pass(s0, nodeIds, orders).adj;
    }

    /** True exactly when every node has EDGES neighbours. */
    method CheckNumEdges() returns (ok: bool)
      ensures ok <==> Regular(Adj(), EDGES)
    {
      var i := 0;
      while i < |nodes|
        invariant 0 <= i <= |nodes|
        invariant forall k :: 0 <= k < i ==> |nodes[k].connections| == EDGES
      {
        if |nodes[i].connections| != EDGES {
          return false;
        }
        i := i + 1;
      }
      return true;
    }

    /** Clears every node's neighbour set, visiting the nodes through the id list. */
    method ResetAll()
      requires Indexed()
      modifies nodes
      ensures nodes == old(nodes) && nodeIds == old(nodeIds) && edges == old(edges) && Indexed()
      ensures Adj() == Cleared(old(Adj()))
    {
      var k := 0;
      while k < |nodeIds|
        invariant 0 <= k <= |nodeIds|
        invariant nodes == old(nodes) && Indexed()
        invariant forall i :: 0 <= i < k ==> nodes[i].connections == {}
        invariant forall i :: k <= i < |nodes| ==> nodes[i].connections == old(nodes[i].connections)
      {
        nodes[nodeIds[k]].Reset();
        k := k + 1;
      }
    }

    /**
     * Repeats the greedy pass, one round of shuffles per pass, until every node has EDGES
     * neighbours, clearing every neighbour set after a failed pass. The edge log is never
     * cleared. `ok` says whether a pass succeeded before the rounds ran out.
     */
    method InitialiseSoln(rounds: seq<seq<seq<nat>>>) returns (ok: bool)
      requires Valid()
      requires forall q :: 0 <= q < |rounds| ==> ShufflesFor(nodeIds, rounds[q])
      modifies nodes
      modifies this`edges
      ensures nodes == old(nodes) && nodeIds == old(nodeIds) && Valid()
      ensures forall q :: 0 <= q < |rounds| ==> PassInputs(|old(nodes)|, nodeIds, rounds[q])
      ensures (State(), ok) == Initialise(old(State()), nodeIds, rounds)
      ensures ok ==> Regular(Adj(), EDGES) && Symmetric(Adj()) && NoSelfLoops(Adj())
      ensures |edges| >= |old(edges)| && edges[..|old(edges)|] == old(edges)
    {
      ghost var s0 := State();
      InitialiseCorrect(s0, nodeIds, rounds);
      ok := false;
      var r := 0;
      while r < |rounds|
        invariant 0 <= r <= |rounds|
        invariant nodes == old(nodes) && nodeIds == old(nodeIds) && Valid()
        invariant forall q :: 0 <= q < |rounds| ==> PassInputs(|nodes|, nodeIds, rounds[q])
        invariant Initialise(s0, nodeIds, rounds) == Initialise(State(), nodeIds, rounds[r..])
        invariant !ok
      {
        InitialiseUnfold(State(), nodeIds, rounds, r);
        ok := Round(rounds[r]);
        if ok {
          return;
        }
        r := r + 1;
      }
    }

    /**
     * One round of the retry loop: a greedy pass, then the degree check; a graph that
     * fails the check has every neighbour set cleared, its edge log kept.
     */
    method Round(orders: seq<seq<nat>>) returns (ok: bool)
      requires Valid() && ShufflesFor(nodeIds, orders)
      modifies nodes
      modifies this`edges
      ensures nodes == old(nodes) && nodeIds == old(nodeIds) && Valid()
      ensures PassInputs(|nodes|, nodeIds, orders)
      ensures ok <==> Regular(Pass(old(State()), nodeIds, orders).adj, EDGES)
      ensures var p := Pass(old(State()), nodeIds, orders);
        State() == if ok then p else PassState(Cleared(p.adj), p.edges)
    {
      SolnInitialiser(orders);
      ghost var passed := State();
      ok := CheckNumEdges();
      if !ok {
        ResetAll();
        ClearedWellFormed(passed.adj, DEGREE_CAP);
        assert State() == PassState(Cleared(passed.adj), passed.edges);
      }
    }
  }

  /** Builds the graph of nodes `0 .. n-1`, added in id order, as the program's entry point does. */
  method BuildGraph(n: nat) returns (g: Graph)
    ensures fresh(g) && g.Valid()
    ensures |g.nodes| == n && g.edges == []
    ensures forall i :: 0 <= i < n ==> g.nodes[i].id == i && g.nodes[i].connections == {}
  {
    g := new Graph();
    var x := 0;
    while x < n
      invariant 0 <= x <= n
      invariant g.Valid() && |g.nodes| == x && g.edges == []
      invariant forall i :: 0 <= i < x ==> g.nodes[i].connections == {}
    {
      var node := new Node(x);
      g.AddNode(node);
      x := x + 1;
    }
  }

  /**
   * The cost evaluator's state. Only the graph and the base cost take part in the cost;
   * the other fields are stored as given.
   */
  class Solver {
    const graph: Graph
    const baseCost: nat
    var solnCost: nat
    var bestEverCost: nat
    var temperature: real
    var alpha: real
    var iterations: nat

    constructor (graph: Graph, temperature: real, alpha: real, iterations: nat)
      ensures this.graph == graph && baseCost == BASE_COST
      ensures solnCost == BASE_COST && bestEverCost == BASE_COST
      ensures this.temperature == temperature && this.alpha == alpha && this.iterations == iterations
    {
      this.graph := graph;
      baseCost := BASE_COST;
      solnCost := BASE_COST;
      bestEverCost := BASE_COST;
      this.temperature := temperature;
      this.alpha := alpha;
      this.iterations := iterations;
    }

    /**
     * Whether the pair (i, j) forms a triangle motif (connected, one common neighbour) or a
     * square motif (not connected, two common neighbours).
     */
    function NeighbourCountFits(i: nat, j: nat): (fits: bool)
      reads this, graph, graph.nodes
      requires i < |graph.nodes| && j < |graph.nodes|
      ensures fits <==> IsMotifPair(graph.Adj(), i, j)
    {
      var count := |graph.nodes[i].connections * graph.nodes[j].connections|;
      if count == 1 then j in graph.nodes[i].connections
      else count == 2 && j !in graph.nodes[i].connections
    }

    /** The pairs of `pairs` that fit, counted one by one. */
    function CountFits(pairs: seq<Pair>): (count: nat)
      reads this, graph, graph.nodes
      requires PairsInRange(pairs, |graph.nodes|)
      ensures count == CountMotifPairs(graph.Adj(), pairs)
      decreases |pairs|
    {
      if pairs == [] then 0
      else
        var n := |pairs| - 1;
        CountFits(pairs[..n]) + if NeighbourCountFits(pairs[n].0, pairs[n].1) then 1 else 0
    }

    /** The base cost less MOTIF_WEIGHT for every pair of the pair list that is a motif pair. */
    function GetCost(): (cost: nat)
      reads this, graph, graph.nodes
      requires PairsInRange(graph.nodePairs, |graph.nodes|)
      requires MOTIF_WEIGHT * CountMotifPairs(graph.Adj(), graph.nodePairs) <= baseCost
      ensures cost == baseCost - MOTIF_WEIGHT * |MotifPairIndices(graph.Adj(), graph.nodePairs)|
      ensures baseCost - MOTIF_WEIGHT * |graph.nodePairs| <= cost <= baseCost
    {
      CountIsCardinality(graph.Adj(), graph.nodePairs);
      baseCost - CountFits(graph.nodePairs) * MOTIF_WEIGHT
    }
  }

  /**
   * For a solver with the base cost of 1000 over a nine-node graph holding the 36 pairs
   * the graph is built with, the cost never underflows and lies in [640, 1000].
   */
  lemma GetCostRange(s: Solver)
    requires s.baseCost == BASE_COST && s.graph.nodePairs == ReferencePairs() && |s.graph.nodes| == NODES
    ensures PairsInRange(s.graph.nodePairs, |s.graph.nodes|)
    ensures MOTIF_WEIGHT * CountMotifPairs(s.graph.Adj(), s.graph.nodePairs) <= s.baseCost
    ensures 640 <= s.GetCost() <= 1000
  {
    CostRange(s.graph.Adj());
  }
}
