/**
 * The list-based prototype: nodes keep their neighbour ids in a list that may repeat
 * ids, and a naive greedy generator pairs each node with whatever the ranking puts
 * first.
 */
module SolutionInitialiser {
  import opened Ranking

  /** Number of nodes the generator builds. */
  const NODE_COUNT: nat := 9
  /** The degree every node should end with. */
  const EDGE_COUNT: nat := 4

  /** `s` without any occurrence of `x`, the other ids in their order. */
  function RemoveAll(s: seq<int>, x: int): (r: seq<int>)
    ensures x !in r
  {
    if s == [] then [] else (if s[0] == x then [] else [s[0]]) + RemoveAll(s[1..], x)
  }

  /** Exactly the occurrences of `x` go; every other id keeps its count. */
  lemma {:induction false} RemoveAllCounts(s: seq<int>, x: int)
    ensures multiset(RemoveAll(s, x)) == multiset(s)[x := 0]
  {
    if s != [] {
      RemoveAllCounts(s[1..], x);
      assert s == [s[0]] + s[1..];
    }
  }

  /** Removing distributes over concatenation, which is what keeps the order of the rest. */
  lemma {:induction false} RemoveAllAppend(a: seq<int>, b: seq<int>, x: int)
    ensures RemoveAll(a + b, x) == RemoveAll(a, x) + RemoveAll(b, x)
  {
    if a == [] {
      assert a + b == b;
    } else {
      var head := if a[0] == x then [] else [a[0]];
      RemoveAllAppend(a[1..], b, x);
      var ab := a + b;
      assert ab != [] && ab[0] == a[0] && ab[1..] == a[1..] + b;
      assert RemoveAll(ab, x) == head + RemoveAll(a[1..] + b, x);
      assert RemoveAll(a, x) == head + RemoveAll(a[1..], x);
    }
  }

  /** A list without `x` is left as it is. */
  lemma {:induction false} RemoveAllAbsent(s: seq<int>, x: int)
    requires x !in s
    ensures RemoveAll(s, x) == s
  {
    if s != [] {
      RemoveAllAbsent(s[1..], x);
      assert s == [s[0]] + s[1..];
    }
  }

  /** Removing twice removes nothing more. */
  lemma RemoveAllIdempotent(s: seq<int>, x: int)
    ensures RemoveAll(RemoveAll(s, x), x) == RemoveAll(s, x)
  {
    RemoveAllAbsent(RemoveAll(s, x), x);
  }

  class Node {
    const id: int
    var connections: seq<int>

    constructor(id: int)
      ensures this.id == id && connections == []
    {
      this.id := id;
      connections := [];
    }

    /** Appends `other`'s id, even when it is already listed. */
    method AddConnection(other: Node)
      modifies this
      ensures connections == old(connections) + [other.id]
    {
      connections := connections + [other.id];
    }

    /** Rebuilds the list without any occurrence of `other`'s id. */
    method RemoveConnection(other: Node)
      modifies this
      ensures connections == RemoveAll(old(connections), other.id)
    {
      connections := RemoveAll(connections, other.id);
    }
  }

  /**
   * The id-to-node dictionary. `keys` lists its keys in insertion order, which is the
   * order the dictionary is iterated in.
   */
  class Graph {
    var graph: map<int, Node>
    var keys: seq<int>

    ghost predicate Valid()
      reads this
    {
      (forall i :: 0 <= i < |keys| ==> keys[i] in graph)
      && (forall k :: k in graph ==> k in keys)
      && (forall a, b :: 0 <= a < b < |keys| ==> keys[a] != keys[b])
      && (forall k :: k in graph ==> graph[k].id == k)
    }

    constructor()
      ensures Valid() && graph == map[] && keys == []
    {
      graph := map[];
      keys := [];
    }

    /** Stores `node` under its id, replacing any node of that id; a new id goes last. */
    method AddNode(node: Node)
      requires Valid()
      modifies this
      ensures graph == old(graph)[node.id := node]
      ensures keys == if node.id in old(graph) then old(keys) else old(keys) + [node.id]
      ensures Valid()
    {
      if node.id !in graph {
        keys := keys + [node.id];
      }
      graph := graph[node.id := node];
    }

    /** The `(id, list length)` entry of each id of `ks`. */
    function Degrees(ks: seq<int>): (r: seq<Entry>)
      reads this, graph.Values
      requires forall i :: 0 <= i < |ks| ==> ks[i] in graph
      ensures |r| == |ks|
      ensures forall i :: 0 <= i < |ks| ==> r[i] == (ks[i], |graph[ks[i]].connections|)
    {
      if ks == [] then [] else [(ks[0], |graph[ks[0]].connections|)] + Degrees(ks[1..])
    }

    lemma DegreesOfKeys()
      requires Valid()
      ensures forall e :: e in Degrees(keys) <==> e.0 in graph && e.1 == |graph[e.0].connections|
      ensures DistinctIds(Degrees(keys))
    {
      var ds := Degrees(keys);
      forall e: Entry | e.0 in graph && e.1 == |graph[e.0].connections| ensures e in ds {
        var i :| 0 <= i < |keys| && keys[i] == e.0;
        assert ds[i] == e;
      }
    }

    /**
     * The nodes whose list is shorter than `EDGE_COUNT`, as `(id, length)`, each exactly
     * once, shortest first, nodes of equal length in dictionary order.
     */
    function RankNodes(): (r: seq<Entry>)
      reads this, graph.Values
      requires Valid()
      ensures forall e :: e in r <==> e.0 in graph && e.1 == |graph[e.0].connections| && e.1 < EDGE_COUNT
      ensures DistinctIds(r)
      ensures SortedByDegree(r)
      ensures forall d: nat :: d < EDGE_COUNT ==> WithDegree(r, d) == WithDegree(Degrees(keys), d)
    {
      DegreesOfKeys();
      var ds := Degrees(keys);
      assert forall d: nat :: d < EDGE_COUNT ==> WithDegree(Candidates(ds, EDGE_COUNT), d) == WithDegree(ds, d) by {
        forall d: nat | d < EDGE_COUNT ensures WithDegree(Candidates(ds, EDGE_COUNT), d) == WithDegree(ds, d) {
          WithDegreeCandidates(ds, EDGE_COUNT, d);
        }
      }
      RankByDegree(ds, EDGE_COUNT)
    }
  }

  /** The ids 0 .. n-1 in order. */
  function IdRange(n: nat): (r: seq<int>)
    ensures |r| == n && forall i :: 0 <= i < n ==> r[i] == i
  {
    seq(n, i => i)
  }

  /** Each id below n occurs in the range exactly once, and nothing else does. */
  lemma {:induction false} IdRangeCounts(n: nat)
    ensures forall x :: multiset(IdRange(n))[x] == if 0 <= x < n then 1 else 0
  {
    if n > 0 {
      IdRangeCounts(n - 1);
      assert IdRange(n) == IdRange(n - 1) + [n - 1];
    }
  }

  /** The neighbour lists of the nodes 0 .. n-1, by id. */
  type Lists = seq<seq<int>>

  /** Total number of entries over all lists. */
  function Total(ls: Lists): nat {
    if ls == [] then 0 else Total(ls[..|ls| - 1]) + |ls[|ls| - 1]|
  }

  /** Replacing one list changes the total by the difference in length. */
  lemma {:induction false} TotalUpdate(ls: Lists, j: nat, v: seq<int>)
    requires j < |ls|
    ensures Total(ls[j := v]) + |ls[j]| == Total(ls) + |v|
  {
    var n := |ls| - 1;
    var t := ls[j := v];
    assert t[..n] == if j < n then ls[..n][j := v] else ls[..n];
    if j < n {
      TotalUpdate(ls[..n], j, v);
    }
  }

  /** Every entry names a node. */
  predicate EntriesInRange(ls: Lists) {
    forall k, x :: 0 <= k < |ls| && x in ls[k] ==> 0 <= x < |ls|
  }

  /** One step of the generator: `a` gets `b` appended, then `b` gets `a` appended. */
  function Link(ls: Lists, a: nat, b: nat): (r: Lists)
    requires a < |ls| && b < |ls|
    ensures |r| == |ls|
    ensures Total(r) == Total(ls) + 2
    ensures EntriesInRange(ls) ==> EntriesInRange(r)
    ensures forall k :: 0 <= k < |ls| && k != a && k != b ==> r[k] == ls[k]
  {
    var once := ls[a := ls[a] + [b]];
    TotalUpdate(ls, a, ls[a] + [b]);
    TotalUpdate(once, b, once[b] + [a]);
    once[b := once[b] + [a]]
  }

  /**
   * What holds after `done` turns have run in full and the current node has taken
   * `edges` steps: the lists hold ids of nodes, two entries per step, and a node whose id
   * is EDGE_COUNT or more has four entries per turn of its own and no others, all of them
   * below EDGE_COUNT.
   */
  predicate GreedyInv(ls: Lists, done: multiset<int>, node: int, edges: nat) {
    |ls| == NODE_COUNT
    && EntriesInRange(ls)
    && Total(ls) == 2 * (EDGE_COUNT * |done| + edges)
    && forall k :: EDGE_COUNT <= k < NODE_COUNT ==>
         |ls[k]| == EDGE_COUNT * done[k] + (if k == node then edges else 0)
         && forall x :: x in ls[k] ==> x < EDGE_COUNT
  }

  /** A step that pairs `node` with an id below EDGE_COUNT keeps the invariant. */
  lemma LinkKeepsInv(ls: Lists, done: multiset<int>, node: int, edges: nat, pairNode: nat)
    requires GreedyInv(ls, done, node, edges)
    requires 0 <= node < NODE_COUNT && pairNode < EDGE_COUNT
    ensures GreedyInv(Link(ls, node, pairNode), done, node, edges + 1)
  {
    var r := Link(ls, node, pairNode);
    forall k | EDGE_COUNT <= k < NODE_COUNT
      ensures |r[k]| == EDGE_COUNT * done[k] + (if k == node then edges + 1 else 0)
      ensures forall x :: x in r[k] ==> x < EDGE_COUNT
    {
      if k == node {
        assert r[k] == ls[k] + [pairNode];
      }
    }
  }

  /**
   * The end of a run that finished: every list holds ids of nodes, there are two entries
   * per step, 72 in all, and each node from EDGE_COUNT up holds exactly EDGE_COUNT ids,
   * all below EDGE_COUNT.
   */
  predicate Completed(ls: Lists) {
    |ls| == NODE_COUNT
    && EntriesInRange(ls)
    && Total(ls) == 2 * EDGE_COUNT * NODE_COUNT
    && forall k :: EDGE_COUNT <= k < NODE_COUNT ==>
         |ls[k]| == EDGE_COUNT && forall x :: x in ls[k] ==> x < EDGE_COUNT
  }

  /**
   * The end of a run that raised IndexError: every list holds ids of nodes, the entries
   * come in pairs, and no list is shorter than EDGE_COUNT.
   */
  predicate Stuck(ls: Lists) {
    |ls| == NODE_COUNT
    && EntriesInRange(ls)
    && Total(ls) % 2 == 0
    && forall k :: 0 <= k < NODE_COUNT ==> |ls[k]| >= EDGE_COUNT
  }

  /** A step that finds no candidate leaves the lists in a stuck state. */
  lemma InvStuck(ls: Lists, done: multiset<int>, node: int, edges: nat)
    requires GreedyInv(ls, done, node, edges)
    requires forall k :: 0 <= k < NODE_COUNT ==> |ls[k]| >= EDGE_COUNT
    ensures Stuck(ls)
  {
    var steps := EDGE_COUNT * |done| + edges;
    assert Total(ls) == 2 * steps;
  }

  /** A finished turn moves the current node into the finished ones. */
  lemma TurnDone(ls: Lists, done: multiset<int>, node: int)
    requires GreedyInv(ls, done, node, EDGE_COUNT)
    ensures GreedyInv(ls, done + multiset{node}, node, 0)
  {
  }

  /** The shortest list length. */
  function MinLength(ls: Lists): (m: nat)
    requires ls != []
    ensures exists k :: 0 <= k < |ls| && |ls[k]| == m
    ensures forall k :: 0 <= k < |ls| ==> m <= |ls[k]|
  {
    if |ls| == 1 then |ls[0]|
    else
      var rest := MinLength(ls[1..]);
      assert forall k :: 0 <= k < |ls| - 1 ==> ls[1..][k] == ls[k + 1];
      if |ls[0]| <= rest then |ls[0]| else rest
  }

  /** No list is shorter than EDGE_COUNT, so nothing is ranked. */
  predicate AllFull(ls: Lists) {
    forall k :: 0 <= k < |ls| ==> |ls[k]| >= EDGE_COUNT
  }

  /**
   * One step on the lists: stuck when nothing is ranked, otherwise `node` is linked with
   * the id equal to the shortest list length, the degree of the first ranked entry.
   */
  function StepLists(ls: Lists, node: nat): (r: (Lists, bool))
    requires |ls| == NODE_COUNT && node < NODE_COUNT
    ensures |r.0| == NODE_COUNT
  {
    if AllFull(ls) then (ls, true)
    else (Link(ls, node, MinLength(ls)), false)
  }

  /** Up to `k` steps of `node`, stopping at the first stuck one. */
  function TurnLists(ls: Lists, node: nat, k: nat): (r: (Lists, bool))
    requires |ls| == NODE_COUNT && node < NODE_COUNT
    ensures |r.0| == NODE_COUNT
    decreases k
  {
    if k == 0 then (ls, false)
    else
      var s := StepLists(ls, node);
      if s.1 then s else TurnLists(s.0, node, k - 1)
  }

  /** Every id of the order names a node. */
  predicate IdsInRange(order: seq<int>) {
    forall i :: 0 <= i < |order| ==> 0 <= order[i] < NODE_COUNT
  }

  /** The turns of the ids of `order`, first to last, stopping at the first stuck one. */
  function Greedy(ls: Lists, order: seq<int>): (r: (Lists, bool))
    requires |ls| == NODE_COUNT && IdsInRange(order)
    ensures |r.0| == NODE_COUNT
    decreases |order|
  {
    if order == [] then (ls, false)
    else
      var t := TurnLists(ls, order[0] as nat, EDGE_COUNT);
      if t.1 then t else Greedy(t.0, order[1..])
  }

  /** The lists of a new graph: one empty list per node. */
  function EmptyLists(): (r: Lists)
    ensures |r| == NODE_COUNT && forall k :: 0 <= k < NODE_COUNT ==> r[k] == []
  {
    seq(NODE_COUNT, k => [])
  }

  /** Running the order from position i is one turn of `order[i]` followed by the rest. */
  lemma GreedyUnfold(ls: Lists, order: seq<int>, i: nat)
    requires |ls| == NODE_COUNT && IdsInRange(order) && i < |order|
    ensures var t := TurnLists(ls, order[i] as nat, EDGE_COUNT);
      (t.1 ==> Greedy(ls, order[i..]) == t) && (!t.1 ==> Greedy(ls, order[i..]) == Greedy(t.0, order[i + 1..]))
  {
    assert order[i..][0] == order[i] && order[i..][1..] == order[i + 1..];
  }

  /** The lists of the nodes 0 .. NODE_COUNT-1. */
  ghost function ListsOf(g: Graph): (r: Lists)
    reads g, g.graph.Values
    requires forall k :: 0 <= k < NODE_COUNT ==> k in g.graph
    ensures |r| == NODE_COUNT
    ensures forall k :: 0 <= k < NODE_COUNT ==> r[k] == g.graph[k].connections
  {
    seq(NODE_COUNT, k reads g, g.graph.Values requires 0 <= k < NODE_COUNT && k in g.graph
      => g.graph[k].connections)
  }

  /** How the generator ended: it placed every edge, or the ranking came back empty. */
  datatype Outcome = Done | IndexError

  /**
   * The greedy generator as written: for each node of the shuffled order, four times, it
   * takes the DEGREE field of the first ranked entry as the partner's id and appends each
   * id to the other's list. Every list only ever receives ids of the graph, and the lists
   * grow by two per step. Since the partner id is a degree below EDGE_COUNT, a node whose
   * id is EDGE_COUNT or more is only ever linked to the ids 0 .. EDGE_COUNT-1, and only
   * on its own turn. The run stops with IndexError exactly when no node is below degree
   * EDGE_COUNT at a step.
   */
  method GenerateGraphGreedy(order: seq<int>) returns (g: Graph, outcome: Outcome)
    requires multiset(order) == multiset(IdRange(NODE_COUNT))
    ensures g.Valid() && g.keys == IdRange(NODE_COUNT)
    ensures forall k :: 0 <= k < NODE_COUNT ==> k in g.graph
    ensures outcome == Done ==> Completed(ListsOf(g))
    ensures outcome == IndexError ==> Stuck(ListsOf(g))
    ensures IdsInRange(order) && (ListsOf(g), outcome == IndexError) == Greedy(EmptyLists(), order)
  {
    OrderInRange(order);
    g := NewGraph();
    ghost var m := g.graph;
    outcome := Done;
    for i := 0 to |order|
      invariant g.Valid() && g.keys == IdRange(NODE_COUNT) && g.graph == m
      invariant forall k :: 0 <= k < NODE_COUNT ==> k in g.graph
      invariant forall n :: n in g.graph.Values ==> fresh(n)
      invariant GreedyRun(order, ListsOf(g), i)
    {
      var node := order[i];
      ghost var before := ListsOf(g);
      var stuck := Turn(g, node, multiset(order[..i]));
      GreedyAdvance(order, i, before, ListsOf(g), stuck);
      if stuck {
        outcome := IndexError;
        return;
      }
    }
    Finished(ListsOf(g), order);
  }

  /**
   * The generator can end in IndexError: with the shuffle 0, 2, 3, ..., 8, 1, node 1 is
   * last, every other list is full before its turn, and its own turn runs out of
   * candidates after three steps.
   */
  lemma IndexErrorReachable()
    ensures IdsInRange([0, 2, 3, 4, 5, 6, 7, 8, 1])
    ensures Greedy(EmptyLists(), [0, 2, 3, 4, 5, 6, 7, 8, 1]).1
  {
    var p := [0, 2, 3, 4, 5, 6, 7, 8];
    assert p + [1] == [0, 2, 3, 4, 5, 6, 7, 8, 1];
    forall j | 0 <= j < NODE_COUNT && j != 1 ensures j in p {
      assert p[if j == 0 then 0 else j - 1] == j;
    }
    assert FullOutside(EmptyLists(), p);
    StuckAtOne(EmptyLists(), p);
  }

  /**
   * Turns of nodes other than 1, taken while list 1 is empty, never get stuck and leave
   * list 1 empty; if every other node then holds EDGE_COUNT ids, node 1's turn is stuck.
   */
  lemma {:induction false} StuckAtOne(ls: Lists, p: seq<int>)
    requires |ls| == NODE_COUNT && ls[1] == []
    requires forall i :: 0 <= i < |p| ==> 0 <= p[i] < NODE_COUNT && p[i] != 1
    requires FullOutside(ls, p)
    ensures IdsInRange(p + [1]) && Greedy(ls, p + [1]).1
    decreases |p|
  {
    var order := p + [1];
    if p == [] {
      assert order == [1];
      LastTurnStuck(ls);
    } else {
      assert order[0] == p[0] && order[1..] == p[1..] + [1];
      var t := TurnLists(ls, p[0] as nat, EDGE_COUNT);
      TurnWhileOneEmpty(ls, p[0] as nat);
      FullOutsideNext(ls, t.0, p);
      StuckAtOne(t.0, p[1..]);
    }
  }

  /** Every list other than list 1 and those of the ids still to come holds EDGE_COUNT ids. */
  predicate FullOutside(ls: Lists, p: seq<int>) {
    forall j :: 0 <= j < |ls| && j != 1 && j !in p ==> |ls[j]| >= EDGE_COUNT
  }

  /** After the turn of `p[0]` has filled its list, only the lists of `p[1..]` may be short. */
  lemma FullOutsideNext(ls: Lists, r: Lists, p: seq<int>)
    requires FullOutside(ls, p) && NoShorter(ls, r) && p != []
    requires 0 <= p[0] < |r| && |r[p[0]]| >= EDGE_COUNT
    ensures FullOutside(r, p[1..])
  {
    forall j | 0 <= j < |r| && j != 1 && j !in p[1..] ensures |r[j]| >= EDGE_COUNT {
      if j != p[0] {
        assert j !in p;
      }
    }
  }

  /** No list of `r` is shorter than the same list of `ls`. */
  predicate NoShorter(ls: Lists, r: Lists) {
    |r| == |ls| && forall j :: 0 <= j < |ls| ==> |ls[j]| <= |r[j]|
  }

  /**
   * While list 1 is empty, each of the EDGE_COUNT steps of a node other than 1 links it
   * with id 0 and none gets stuck: list 1 stays empty, no list shrinks, and the node's list
   * gains EDGE_COUNT entries.
   */
  lemma TurnWhileOneEmpty(ls: Lists, node: nat)
    requires |ls| == NODE_COUNT && node < NODE_COUNT && node != 1 && ls[1] == []
    ensures var t := TurnLists(ls, node, EDGE_COUNT);
      !t.1 && t.0[1] == [] && |t.0[node]| >= |ls[node]| + EDGE_COUNT && NoShorter(ls, t.0)
  {
    ZeroStep(ls, node);
    var s1 := StepLists(ls, node).0;
    ZeroStep(s1, node);
    var s2 := StepLists(s1, node).0;
    ZeroStep(s2, node);
    var s3 := StepLists(s2, node).0;
    ZeroStep(s3, node);
    var s4 := StepLists(s3, node).0;
    assert TurnLists(s3, node, 1) == (s4, false);
    assert TurnLists(s2, node, 2) == TurnLists(s3, node, 1);
    assert TurnLists(s1, node, 3) == TurnLists(s2, node, 2);
    NoShorterTrans(ls, s1, s2);
    NoShorterTrans(ls, s2, s3);
    NoShorterTrans(ls, s3, s4);
  }

  /**
   * While list 1 is empty no list is full and the shortest length is 0, so a step of a
   * node other than 1 links it with id 0.
   */
  lemma ZeroStep(ls: Lists, node: nat)
    requires |ls| == NODE_COUNT && node < NODE_COUNT && node != 1 && ls[1] == []
    ensures var s := StepLists(ls, node);
      !s.1 && s.0[1] == [] && |s.0[node]| >= |ls[node]| + 1 && NoShorter(ls, s.0)
  {
    assert !AllFull(ls) by {
      assert |ls[1]| < EDGE_COUNT;
    }
    assert MinLength(ls) == 0 by {
      assert MinLength(ls) <= |ls[1]|;
    }
    LinkLengths(ls, node, 0);
  }

  lemma NoShorterTrans(a: Lists, b: Lists, c: Lists)
    requires NoShorter(a, b) && NoShorter(b, c)
    ensures NoShorter(a, c)
  {
  }

  /** Every list other than list 1 holds at least EDGE_COUNT ids. */
  predicate OthersFull(ls: Lists) {
    forall j :: 0 <= j < |ls| && j != 1 ==> |ls[j]| >= EDGE_COUNT
  }

  /**
   * Node 1's turn when list 1 is empty and every other list is full: it links with 0,
   * then with itself (length 1 is now the shortest), then with 3, and then nothing is
   * ranked.
   */
  lemma LastTurnStuck(ls: Lists)
    requires |ls| == NODE_COUNT && ls[1] == [] && OthersFull(ls)
    ensures TurnLists(ls, 1, EDGE_COUNT).1
  {
    OneStep(ls);
    var s1 := StepLists(ls, 1).0;
    OneStep(s1);
    var s2 := StepLists(s1, 1).0;
    OneStep(s2);
    var s3 := StepLists(s2, 1).0;
    assert AllFull(s3);
    assert TurnLists(s3, 1, 1).1;
    assert TurnLists(s2, 1, 2) == TurnLists(s3, 1, 1);
    assert TurnLists(s1, 1, 3) == TurnLists(s2, 1, 2);
  }

  /**
   * With every other list full, the shortest list is list 1, so node 1 is linked with the
   * id equal to its own length: once, or twice when that id is 1 itself.
   */
  lemma OneStep(ls: Lists)
    requires |ls| == NODE_COUNT && OthersFull(ls) && |ls[1]| < EDGE_COUNT
    ensures var s := StepLists(ls, 1);
      !s.1 && OthersFull(s.0) && |s.0[1]| == |ls[1]| + if |ls[1]| == 1 then 2 else 1
  {
    assert !AllFull(ls);
    assert MinLength(ls) == |ls[1]| by {
      assert MinLength(ls) <= |ls[1]|;
    }
    LinkLengths(ls, 1, |ls[1]|);
  }

  /** A step never shortens a list and lengthens `a`'s by one, or by two when `a == b`. */
  lemma LinkLengths(ls: Lists, a: nat, b: nat)
    requires a < |ls| && b < |ls|
    ensures NoShorter(ls, Link(ls, a, b))
    ensures |Link(ls, a, b)[a]| == |ls[a]| + if a == b then 2 else 1
  {
  }

  /** An order holding each id of the graph once holds only ids of the graph. */
  lemma OrderInRange(order: seq<int>)
    requires multiset(order) == multiset(IdRange(NODE_COUNT))
    ensures IdsInRange(order)
  {
    IdRangeCounts(NODE_COUNT);
    forall i | 0 <= i < |order| ensures 0 <= order[i] < NODE_COUNT {
      assert order[i] in multiset(order);
    }
  }

  /**
   * After the turns of `order[..i]`: the generator's invariant holds, and the rest of the
   * order ends where the whole order does.
   */
  predicate GreedyRun(order: seq<int>, ls: Lists, i: nat) {
    && IdsInRange(order) && i <= |order|
    && GreedyInv(ls, multiset(order[..i]), -1, 0)
    && Greedy(EmptyLists(), order) == Greedy(ls, order[i..])
  }

  /** A turn that finishes moves the run on by one id; one that is stuck ends the run. */
  lemma GreedyAdvance(order: seq<int>, i: nat, before: Lists, after: Lists, stuck: bool)
    requires GreedyRun(order, before, i) && i < |order|
    requires (after, stuck) == TurnLists(before, order[i] as nat, EDGE_COUNT)
    requires !stuck ==> GreedyInv(after, multiset(order[..i]) + multiset{order[i]}, order[i], 0)
    ensures stuck ==> Greedy(EmptyLists(), order) == (after, true)
    ensures !stuck ==> GreedyRun(order, after, i + 1)
  {
    GreedyUnfold(before, order, i);
    if !stuck {
      PrefixCount(order, i);
    }
  }

  /** The ids of a prefix one longer are those of the shorter prefix and the next id. */
  lemma PrefixCount(order: seq<int>, i: nat)
    requires i < |order|
    ensures multiset(order[..i + 1]) == multiset(order[..i]) + multiset{order[i]}
  {
    assert order[..i + 1] == order[..i] + [order[i]];
  }

  /**
   * After a turn for each id: 72 entries in all, and each node from EDGE_COUNT up holds
   * exactly EDGE_COUNT ids, all below EDGE_COUNT; the run ends here.
   */
  lemma Finished(ls: Lists, order: seq<int>)
    requires multiset(order) == multiset(IdRange(NODE_COUNT))
    requires GreedyRun(order, ls, |order|)
    ensures Completed(ls)
    ensures Greedy(EmptyLists(), order) == (ls, false)
  {
    assert order[..|order|] == order;
    assert order[|order|..] == [];
    IdRangeCounts(NODE_COUNT);
  }

  /**
   * One turn of the generator: up to EDGE_COUNT steps for `node`, stopping early when the
   * ranking comes back empty.
   */
  method Turn(g: Graph, node: int, ghost done: multiset<int>) returns (stuck: bool)
    requires g.Valid() && g.keys == IdRange(NODE_COUNT) && forall k :: 0 <= k < NODE_COUNT ==> k in g.graph
    requires 0 <= node < NODE_COUNT
    requires GreedyInv(ListsOf(g), done, node, 0)
    modifies g.graph.Values
    ensures g.Valid() && g.graph == old(g.graph) && g.keys == old(g.keys)
    ensures (ListsOf(g), stuck) == TurnLists(old(ListsOf(g)), node as nat, EDGE_COUNT)
    ensures !stuck ==> GreedyInv(ListsOf(g), done + multiset{node}, node, 0)
    ensures stuck ==> Stuck(ListsOf(g))
  {
    ghost var start := ListsOf(g);
    var edges := 0;
    while edges < EDGE_COUNT
      invariant g.Valid() && g.graph == old(g.graph) && g.keys == old(g.keys)
      invariant TurnInv(start, ListsOf(g), done, node as nat, edges)
    {
      ghost var before := ListsOf(g);
      var pairNode;
      stuck, pairNode := Step(g, node);
      TurnAdvance(start, before, ListsOf(g), done, node as nat, edges, stuck);
      if stuck {
        return;
      }
      edges := edges + 1;
    }
    TurnComplete(start, ListsOf(g), done, node as nat);
    stuck := false;
  }

  /**
   * After `edges` steps of the turn of `node`: the generator's invariant holds, and the
   * remaining steps end where the whole turn does.
   */
  predicate TurnInv(start: Lists, ls: Lists, done: multiset<int>, node: nat, edges: nat) {
    && |start| == NODE_COUNT && node < NODE_COUNT && edges <= EDGE_COUNT
    && GreedyInv(ls, done, node, edges)
    && TurnLists(start, node, EDGE_COUNT) == TurnLists(ls, node, EDGE_COUNT - edges)
  }

  /** A linking step moves the turn on by one; a stuck step ends it in the stuck state. */
  lemma TurnAdvance(start: Lists, before: Lists, after: Lists, done: multiset<int>, node: nat, edges: nat, stuck: bool)
    requires TurnInv(start, before, done, node, edges) && edges < EDGE_COUNT
    requires (after, stuck) == StepLists(before, node)
    ensures stuck ==> Stuck(after) && TurnLists(start, node, EDGE_COUNT) == (after, true)
    ensures !stuck ==> TurnInv(start, after, done, node, edges + 1)
  {
    if stuck {
      InvStuck(before, done, node, edges);
    } else {
      var k :| 0 <= k < |before| && |before[k]| < EDGE_COUNT;
      LinkKeepsInv(before, done, node, edges, MinLength(before));
    }
  }

  /** A turn that took all its steps is finished and ends unstuck. */
  lemma TurnComplete(start: Lists, ls: Lists, done: multiset<int>, node: nat)
    requires TurnInv(start, ls, done, node, EDGE_COUNT)
    ensures GreedyInv(ls, done + multiset{node}, node, 0)
    ensures TurnLists(start, node, EDGE_COUNT) == (ls, false)
  {
    TurnDone(ls, done, node);
  }

  /**
   * One step: the first ranked entry's degree is taken as the partner id, and the two
   * nodes are appended to each other's lists. With nothing ranked the step is stuck.
   */
  method Step(g: Graph, node: int) returns (stuck: bool, pairNode: nat)
    requires g.Valid() && g.keys == IdRange(NODE_COUNT) && forall k :: 0 <= k < NODE_COUNT ==> k in g.graph
    requires 0 <= node < NODE_COUNT
    modifies g.graph.Values
    ensures g.Valid() && g.graph == old(g.graph) && g.keys == old(g.keys)
    ensures (ListsOf(g), stuck) == StepLists(old(ListsOf(g)), node as nat)
    ensures !stuck ==> pairNode == MinLength(old(ListsOf(g))) && pairNode < EDGE_COUNT
  {
    stuck, pairNode := Pick(g);
    PickOnLists(g, stuck, pairNode);
    ghost var before := ListsOf(g);
    if !stuck {
      LinkNodes(g, node, pairNode);
    }
    StepOnLists(before, ListsOf(g), node as nat, stuck, pairNode);
  }

  /** The lists a step leaves, given what `Pick` found, are the ones `StepLists` computes. */
  lemma StepOnLists(before: Lists, after: Lists, node: nat, stuck: bool, pairNode: nat)
    requires |before| == NODE_COUNT && node < NODE_COUNT
    requires stuck <==> AllFull(before)
    requires stuck ==> after == before
    requires !stuck ==> pairNode == MinLength(before) && after == Link(before, node, pairNode)
    ensures (after, stuck) == StepLists(before, node)
    ensures !stuck ==> pairNode < EDGE_COUNT
  {
  }

  /**
   * The partner the ranking offers: the degree of its first entry. Since the ranking is
   * sorted by degree, that is the smallest list length in the graph; the ranking is empty
   * exactly when no list is shorter than EDGE_COUNT.
   */
  method Pick(g: Graph) returns (stuck: bool, pairNode: nat)
    requires g.Valid()
    ensures stuck <==> forall k :: k in g.graph ==> |g.graph[k].connections| >= EDGE_COUNT
    ensures !stuck ==> pairNode < EDGE_COUNT
    ensures !stuck ==> exists k :: k in g.graph && |g.graph[k].connections| == pairNode
    ensures !stuck ==> forall k :: k in g.graph ==> pairNode <= |g.graph[k].connections|
  {
    var ranked := g.RankNodes();
    if ranked == [] {
      NoCandidates(g);
      return true, 0;
    }
    assert ranked[0] in ranked;
    stuck, pairNode := false, ranked[0].1;
    forall k | k in g.graph ensures pairNode <= |g.graph[k].connections| {
      var e: Entry := (k, |g.graph[k].connections|);
      if e.1 < EDGE_COUNT {
        assert e in ranked;
        var i :| 0 <= i < |ranked| && ranked[i] == e;
        if i > 0 {
          assert ranked[0].1 <= ranked[i].1;
        }
      }
    }
  }

  /** Appends each of the two ids to the other's list. */
  method LinkNodes(g: Graph, a: nat, b: nat)
    requires g.Valid() && forall k :: 0 <= k < NODE_COUNT ==> k in g.graph
    requires a < NODE_COUNT && b < NODE_COUNT
    modifies g.graph.Values
    ensures g.graph == old(g.graph) && g.keys == old(g.keys)
    ensures ListsOf(g) == Link(old(ListsOf(g)), a, b)
  {
    ghost var before := ListsOf(g);
    g.graph[a].AddConnection(g.graph[b]);
    g.graph[b].AddConnection(g.graph[a]);
    assert ListsOf(g) == Link(before, a, b);
  }

  /** A dictionary holding fresh nodes 0 .. NODE_COUNT-1, in order, each with an empty list. */
  method NewGraph() returns (g: Graph)
    ensures g.Valid() && g.keys == IdRange(NODE_COUNT)
    ensures forall k :: 0 <= k < NODE_COUNT ==> k in g.graph
    ensures GreedyInv(ListsOf(g), multiset{}, -1, 0) && ListsOf(g) == EmptyLists()
    ensures fresh(g) && forall n :: n in g.graph.Values ==> fresh(n)
  {
    g := new Graph();
    for j := 0 to NODE_COUNT
      invariant g.Valid() && g.keys == IdRange(j) && fresh(g)
      invariant forall k :: 0 <= k < j ==> k in g.graph && g.graph[k].connections == [] && fresh(g.graph[k])
      invariant forall k :: k in g.graph ==> 0 <= k < j
      invariant forall n :: n in g.graph.Values ==> fresh(n)
    {
      var n := new Node(j);
      g.AddNode(n);
      assert IdRange(j + 1) == IdRange(j) + [j];
    }
    assert forall k :: 0 <= k < NODE_COUNT ==> ListsOf(g)[k] == [];
    EmptyTotal(ListsOf(g));
  }

  /** Lists that are all empty hold no entries. */
  lemma {:induction false} EmptyTotal(ls: Lists)
    requires forall k :: 0 <= k < |ls| ==> ls[k] == []
    ensures Total(ls) == 0
  {
    if ls != [] {
      EmptyTotal(ls[..|ls| - 1]);
    }
  }

  /** An empty ranking means no node of the graph is below EDGE_COUNT. */
  lemma NoCandidates(g: Graph)
    requires g.Valid() && g.RankNodes() == []
    ensures forall k :: k in g.graph ==> |g.graph[k].connections| >= EDGE_COUNT
  {
    forall k | k in g.graph ensures |g.graph[k].connections| >= EDGE_COUNT {
      var e: Entry := (k, |g.graph[k].connections|);
      assert e !in g.RankNodes();
    }
  }

  /** The dictionary built for the generator has exactly the keys 0 .. NODE_COUNT-1. */
  lemma KeysAreIds(g: Graph)
    requires g.Valid() && g.keys == IdRange(NODE_COUNT)
    ensures forall k :: k in g.graph <==> 0 <= k < NODE_COUNT
  {
    forall k | k in g.graph ensures 0 <= k < NODE_COUNT {
      var i :| 0 <= i < |g.keys| && g.keys[i] == k;
    }
    forall k | 0 <= k < NODE_COUNT ensures k in g.graph {
      assert g.keys[k] == k;
    }
  }

  /** What `Pick` finds in the dictionary, read on the lists: nothing when all are full, else the shortest length. */
  lemma PickOnLists(g: Graph, stuck: bool, pairNode: nat)
    requires g.Valid() && g.keys == IdRange(NODE_COUNT)
    requires stuck <==> forall k :: k in g.graph ==> |g.graph[k].connections| >= EDGE_COUNT
    requires !stuck ==> exists k :: k in g.graph && |g.graph[k].connections| == pairNode
    requires !stuck ==> forall k :: k in g.graph ==> pairNode <= |g.graph[k].connections|
    ensures forall k :: 0 <= k < NODE_COUNT ==> k in g.graph
    ensures stuck <==> AllFull(ListsOf(g))
    ensures !stuck ==> pairNode == MinLength(ListsOf(g))
  {
    KeysAreIds(g);
    var ls := ListsOf(g);
    if !stuck {
      var k :| k in g.graph && |g.graph[k].connections| == pairNode;
      assert |ls[k]| == pairNode;
      var m := MinLength(ls);
      var j :| 0 <= j < |ls| && |ls[j]| == m;
      assert pairNode <= |ls[j]|;
    }
  }
}
