/**
 * The set-based prototype: nodes keep their neighbour ids in a set, the graph is a
 * dictionary from id to node, and the ranking lists the nodes that can still take an
 * edge, least connected first.
 */
module Scratch {
  import opened Ranking
  import opened Adjacency

  /** The degree every node should end with. */
  const EDGE_COUNT: nat := 4

  class Node {
    const id: int
    var connections: set<int>

    constructor(id: int)
      ensures this.id == id && connections == {}
    {
      this.id := id;
      connections := {};
    }

    /** Records `other` as a neighbour. */
    method AddConnection(other: Node)
      modifies this
      ensures connections == old(connections) + {other.id}
    {
      connections := connections + {other.id};
    }

    /** Rebuilds the neighbour set without `other`. */
    method RemoveConnection(other: Node)
      modifies this
      ensures connections == old(connections) - {other.id}
    {
      connections := set x | x in connections && x != other.id;
    }

    /** How many neighbours this node shares with `other`; at most either one's degree. */
    function Connectedness(other: Node): (n: nat)
      reads this, other
      ensures n <= |connections| && n <= |other.connections|
    {
      var common := connections * other.connections;
      SubsetCard(common, connections);
      SubsetCard(common, other.connections);
      |common|
    }
  }

  /** Shared neighbours are counted the same from either side. */
  lemma ConnectednessSymmetric(a: Node, b: Node)
    ensures a.Connectedness(b) == b.Connectedness(a)
  {
    assert a.connections * b.connections == b.connections * a.connections;
  }

  /** Two nodes share no neighbour exactly when their connectedness is zero. */
  lemma ConnectednessZero(a: Node, b: Node)
    ensures a.Connectedness(b) == 0 <==> forall x :: x in a.connections ==> x !in b.connections
  {
    var common := a.connections * b.connections;
    if forall x :: x in a.connections ==> x !in b.connections {
      assert common == {};
    } else {
      var x :| x in a.connections && x in b.connections;
      assert x in common;
    }
  }

  /**
   * The id-to-node dictionary. `keys` lists its keys in insertion order, which is the
   * order the dictionary is iterated in.
   */
  class Graph {
    var graph: map<int, Node>
    var keys: seq<int>

    ghost predicate Valid()
      reads this
    {
      (forall i :: 0 <= i < |keys| ==> keys[i] in graph)
      && (forall k :: k in graph ==> k in keys)
      && (forall a, b :: 0 <= a < b < |keys| ==> keys[a] != keys[b])
      && (forall k :: k in graph ==> graph[k].id == k)
    }

    constructor()
      ensures Valid() && graph == map[] && keys == []
    {
      graph := map[];
      keys := [];
    }

    /** Stores `node` under its id, replacing any node of that id; a new id goes last. */
    method AddNode(node: Node)
      requires Valid()
      modifies this
      ensures graph == old(graph)[node.id := node]
      ensures keys == if node.id in old(graph) then old(keys) else old(keys) + [node.id]
      ensures Valid()
    {
      if node.id !in graph {
        keys := keys + [node.id];
      }
      graph := graph[node.id := node];
    }

    /** The `(id, degree)` entry of each id of `ks`. */
    function Degrees(ks: seq<int>): (r: seq<Entry>)
      reads this, graph.Values
      requires forall i :: 0 <= i < |ks| ==> ks[i] in graph
      ensures |r| == |ks|
      ensures forall i :: 0 <= i < |ks| ==> r[i] == (ks[i], |graph[ks[i]].connections|)
    {
      if ks == [] then [] else [(ks[0], |graph[ks[0]].connections|)] + Degrees(ks[1..])
    }

    lemma DegreesOfKeys()
      requires Valid()
      ensures forall e :: e in Degrees(keys) <==> e.0 in graph && e.1 == |graph[e.0].connections|
      ensures DistinctIds(Degrees(keys))
    {
      var ds := Degrees(keys);
      forall e: Entry | e.0 in graph && e.1 == |graph[e.0].connections| ensures e in ds {
        var i :| 0 <= i < |keys| && keys[i] == e.0;
        assert ds[i] == e;
      }
    }

    /**
     * The nodes that can still take an edge, as `(id, degree)`, each exactly once, least
     * connected first, nodes of equal degree in dictionary order.
     */
    function RankNodes(): (r: seq<Entry>)
      reads this, graph.Values
      requires Valid()
      ensures forall e :: e in r <==> e.0 in graph && e.1 == |graph[e.0].connections| && e.1 < EDGE_COUNT
      ensures DistinctIds(r)
      ensures SortedByDegree(r)
      ensures forall d: nat :: d < EDGE_COUNT ==> WithDegree(r, d) == WithDegree(Degrees(keys), d)
    {
      DegreesOfKeys();
      var ds := Degrees(keys);
      assert forall d: nat :: d < EDGE_COUNT ==> WithDegree(Candidates(ds, EDGE_COUNT), d) == WithDegree(ds, d) by {
        forall d: nat | d < EDGE_COUNT ensures WithDegree(Candidates(ds, EDGE_COUNT), d) == WithDegree(ds, d) {
          WithDegreeCandidates(ds, EDGE_COUNT, d);
        }
      }
      RankByDegree(ds, EDGE_COUNT)
    }
  }
}
