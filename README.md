# Regular-graph construction and motif scoring

This project models the construction and scoring core of a search for a degree-regular
graph on nine nodes. The search looks for graphs in which many node pairs form one of two
motifs:

- a triangle motif is a connected pair with exactly one common neighbour;
- a square motif is an unconnected pair with exactly two common neighbours.

The Rust program `solver/src/main.rs` is modelled in module `SolverMain`:

- `Node` and `Graph` become classes whose methods update the neighbour sets in place.
- The greedy pass, the degree check and the restart loop are methods with loops.
- Each method is proved against value-level functions in module `GreedyPass`:
  - `Step` joins two nodes;
  - `Walk` runs one node's walk over its shuffled candidates;
  - `Pass` runs the walks of all nodes;
  - `Initialise` repeats passes until one succeeds.
- Lemmas about those functions show what a pass preserves: symmetry, no self-loops, degree
  at most four, and an edge log that only grows.
- They also show that a successful initialisation yields a 4-regular simple graph.
- The cost evaluator is a class of functions. Its count is tied to a sequential count of
  motif pairs (`MotifCost`) over the 36 pairs of nine nodes (`NodePairs`).
- The cost is shown never to underflow: it lies in [640, 1000].

The three Python prototypes are modelled beside it:

- `scratch.py` (module `Scratch`): a node keeps its neighbour ids in a set; the graph is an
  id-to-node dictionary.
- `solution_initialiser.py` (module `SolutionInitialiser`): a node keeps its neighbour ids
  in a list. The naive greedy generator is a method over the dictionary of nodes.
- Both prototypes rank the nodes that can still take an edge. The ranking is the shared
  filter and stable sort of module `Ranking`.
- `solution_initialiser_lp.py` (module `SolutionInitialiserLp`): the compliance check and
  the score are pure functions over a square integer matrix.
- `AdjOf` reads a 0/1 matrix as neighbour sets. That ties the check to regularity and the
  score's cells to the motifs of module `Adjacency`.

Randomness enters only as shuffle orders, which are parameters:

- `orders` gives one shuffle per node for a pass;
- `rounds` gives one list of shuffles per pass of the restart loop;
- `order` gives the shuffled key list of the generator.

Three behaviours of the code a reader might not expect, all modelled as written:

- After a failed pass the Rust restart loop clears every neighbour set but not the `edges`
  log. So the log keeps the edges of failed passes. `InitialiseSoln` and `InitialiseCorrect`
  state exactly that: the log is only ever extended.
- `get_score` counts cells on the diagonal, because `np.triu(.., 0)` keeps them. Its triangle
  count has no adjacency check. `ScoreCells` states both facts.
- `generate_graph_greedy` takes the degree field of the first ranked entry as the partner's
  id. The model keeps that: the partner is always an id below four.
  Some shuffles run out of candidates and raise IndexError; `IndexErrorReachable` names one.

## Model

| member | source | states |
|---|---|---|
| SolverMain.Node.constructor | solver/src/main.rs:19-24 | a new node has the given id and no neighbours |
| SolverMain.Node.AddConnection | solver/src/main.rs:26-28 | the neighbour set becomes the old set plus the id; the node's id is a constant |
| SolverMain.Node.RemoveConnection | solver/src/main.rs:30-32 | the neighbour set becomes the old set minus the id |
| SolverMain.Node.Reset | solver/src/main.rs:34-36 | the neighbour set is empty afterwards |
| SolverMain.Graph.constructor | solver/src/main.rs:48-55 | no nodes, ids or edges; the pair list is all 2-combinations of the nine ids; the graph is valid |
| SolverMain.Graph.AddNode | solver/src/main.rs:57-61 | the node is inserted at index `node.id`, later nodes shift up, the id is appended to the id list, the edge log is unchanged; appending an isolated node with the next id keeps the graph valid |
| SolverMain.Graph.TryConnect | solver/src/main.rs:81-88 | the new state is one `Step`: both neighbour sets and the edge log gain the edge, unless either endpoint already has four neighbours |
| SolverMain.Graph.WalkNode | solver/src/main.rs:80-89 | the new state is the `Walk` of the node over its shuffled candidates, first to last |
| SolverMain.Graph.SolnInitialiser | solver/src/main.rs:66-91 | the new state is the `Pass` over all nodes in id order, each with its own shuffle of the other ids; the graph stays symmetric, loop-free and of degree at most four |
| SolverMain.Graph.CheckNumEdges | solver/src/main.rs:95-103 | true exactly when every node has EDGES neighbours |
| SolverMain.Graph.ResetAll | solver/src/main.rs:112-114 | every neighbour set is cleared through the id list; nodes, ids and edge log are unchanged |
| SolverMain.Graph.Round | solver/src/main.rs:108-114 | one pass then the check: success exactly when the pass left the graph 4-regular; on failure the sets are cleared and the pass's edge log kept |
| SolverMain.Graph.InitialiseSoln | solver/src/main.rs:106-116 | the result is `Initialise` over the supplied rounds; on success the graph is 4-regular, symmetric and loop-free; the edge log is only ever extended |
| SolverMain.BuildGraph | solver/src/main.rs:182-185 | adding nodes `0 .. n-1` in order gives a valid graph of n nodes where `nodes[i]` has id i and an empty neighbour set, and the edge log is empty |
| SolverMain.Solver.constructor | solver/src/main.rs:130-140 | the base, current and best costs are 1000; the other fields hold the given values |
| SolverMain.Solver.NeighbourCountFits | solver/src/main.rs:146-160 | true exactly when the pair is a triangle motif or a square motif of the graph |
| SolverMain.Solver.CountFits | solver/src/main.rs:168-177 | the count of fitting pairs equals the sequential motif-pair count of the list |
| SolverMain.Solver.GetCost | solver/src/main.rs:162-178 | the cost is the base cost less ten per motif position of the pair list, and lies between base − 10·(pairs) and base |
| SolverMain.GetCostRange | solver/src/main.rs:162-178 | with base 1000 and the 36 pairs of nine nodes, the subtraction never underflows and the cost lies in [640, 1000] |
| GreedyPass.Others | solver/src/main.rs:72-76 | the candidate list holds exactly the ids other than the walking node |
| GreedyPass.StepPreserves | solver/src/main.rs:81-88 | a step keeps the graph symmetric, loop-free and of degree at most four, never removes a neighbour, and only appends to the edge log |
| GreedyPass.WalkPreserves | solver/src/main.rs:80-89 | a walk keeps those invariants, and afterwards every visited candidate is a neighbour or one of the two is full |
| GreedyPass.PassPreserves | solver/src/main.rs:71-90 | a pass over candidates that never name the walking node keeps those invariants and extends the edge log |
| GreedyPass.ShufflesAreInputs | solver/src/main.rs:72-78 | shuffles of the other ids name nodes of the graph and never the walking node itself |
| GreedyPass.PassKeepsInvariants | solver/src/main.rs:66-91 | a full pass over shuffles keeps the graph symmetric, loop-free and of degree at most four, and extends the edge log |
| GreedyPass.ClearedWellFormed | solver/src/main.rs:112-114 | clearing every neighbour set leaves a well-formed graph |
| GreedyPass.InitialiseCorrect | solver/src/main.rs:106-116 | success means 4-regular, symmetric and loop-free; failure after at least one round leaves every set empty; the edge log is only extended |
| Adjacency.AppendIsolated | solver/src/main.rs:183-185 | adding a node without neighbours keeps a graph well formed |
| Adjacency.MotifPairSymmetric | solver/src/main.rs:146-160 | on a symmetric graph both motifs and the fit test do not depend on the order of the pair |
| Adjacency.MotifsExclusive | solver/src/main.rs:152-159 | no pair is both a triangle motif and a square motif |
| Adjacency.CommonNeighboursBounded | solver/src/main.rs:148-151 | the common-neighbour count is at most either node's degree |
| Adjacency.FourCycleMotifs | solver/src/main.rs:146-160 | on the 4-cycle, opposite corners form a square motif and adjacent corners form no motif |
| NodePairs.AllPairsFacts | solver/src/main.rs:53 | the pair list holds exactly the pairs `i < j < n`, strictly increasing in lexicographic order, `n(n-1)/2` of them |
| NodePairs.AllPairsInRange | solver/src/main.rs:53 | both ids of every pair name a node |
| NodePairs.NinePairs | solver/src/main.rs:53 | nine nodes give 36 pairs |
| MotifCost.CountIsCardinality | solver/src/main.rs:172-176 | the pair-by-pair count equals the number of motif positions and is at most the list length |
| MotifCost.CostRange | solver/src/main.rs:168-177 | over the 36 pairs of nine nodes, ten per motif pair is at most 1000, so the cost lies in [640, 1000] |
| Ranking.Candidates | scratch.py:43-47 | exactly the entries below the cap are kept, none added |
| Ranking.SortFacts | scratch.py:48 | the sort orders by degree, is a permutation, and is stable (the entries of each degree keep their order) |
| Ranking.RankByDegree | scratch.py:43-48 | exactly the entries below the cap, as a permutation of the filtered list, sorted by degree, stable, and with distinct ids when the input's ids are distinct |
| Scratch.Node.constructor | scratch.py:11-13 | a new node has the given id and an empty set |
| Scratch.Node.AddConnection | scratch.py:15-16 | the set becomes the old set plus the other node's id |
| Scratch.Node.RemoveConnection | scratch.py:18-21 | the rebuilt set is the old set minus the other node's id |
| Scratch.Node.Connectedness | scratch.py:23-24 | the shared-neighbour count is at most either node's degree |
| Scratch.ConnectednessSymmetric | scratch.py:23-24 | the shared-neighbour count is the same from either node |
| Scratch.ConnectednessZero | scratch.py:23-24 | the count is zero exactly when the two sets are disjoint |
| Scratch.Graph.constructor | scratch.py:28-29 | the dictionary starts empty |
| Scratch.Graph.AddNode | scratch.py:31-32 | the dictionary maps the node's id to the node, replacing any earlier node; a new id goes last in iteration order |
| Scratch.Graph.RankNodes | scratch.py:40-50 | exactly the `(id, degree)` pairs of nodes below degree four, each once, sorted by degree, ties in dictionary order; a function, so the graph is unchanged |
| SolutionInitialiser.RemoveAll | solution_initialiser.py:19-22 | the removed id no longer occurs |
| SolutionInitialiser.RemoveAllCounts | solution_initialiser.py:19-22 | exactly the occurrences of the id go; every other id keeps its count |
| SolutionInitialiser.RemoveAllAppend | solution_initialiser.py:19-22 | removal distributes over concatenation, so the remaining ids keep their order |
| SolutionInitialiser.RemoveAllAbsent | solution_initialiser.py:19-22 | a list without the id is unchanged |
| SolutionInitialiser.RemoveAllIdempotent | solution_initialiser.py:19-22 | removing twice is removing once |
| SolutionInitialiser.Node.constructor | solution_initialiser.py:12-14 | a new node has the given id and an empty list |
| SolutionInitialiser.Node.AddConnection | solution_initialiser.py:16-17 | the other id is appended even when already listed, so the length grows by one |
| SolutionInitialiser.Node.RemoveConnection | solution_initialiser.py:19-22 | the list becomes `RemoveAll` of the old list |
| SolutionInitialiser.Graph.constructor | solution_initialiser.py:26-27 | the dictionary starts empty |
| SolutionInitialiser.Graph.AddNode | solution_initialiser.py:29-30 | the dictionary maps the node's id to the node, replacing any earlier node; a new id goes last in iteration order |
| SolutionInitialiser.Graph.RankNodes | solution_initialiser.py:38-47 | exactly the `(id, length)` pairs of lists shorter than four, each once, sorted by length, ties in dictionary order; the graph is unchanged |
| SolutionInitialiser.IdRangeCounts | solution_initialiser.py:57-58 | each id below n occurs once in the key list and nothing else occurs, so a shuffle is a permutation of it |
| SolutionInitialiser.Link | solution_initialiser.py:64-65 | one step appends each id to the other's list: total length grows by exactly two and the other lists are unchanged |
| SolutionInitialiser.LinkKeepsInv | solution_initialiser.py:62-66 | a step pairing the node with an id below four keeps the generator's invariant with one more edge |
| SolutionInitialiser.InvStuck | solution_initialiser.py:63 | if no list is below four at a step, the lists are in the stuck state |
| SolutionInitialiser.TurnDone | solution_initialiser.py:61-66 | after four steps the node's turn counts as finished |
| SolutionInitialiser.Finished | solution_initialiser.py:60-66 | after one full turn per id there are 72 entries, and every node from id four up holds exactly four ids, all below four |
| SolutionInitialiser.MinLength | solution_initialiser.py:38-47 | the length of some list, and no list is shorter: the degree of the first entry of the ranking |
| SolutionInitialiser.GreedyUnfold | solution_initialiser.py:60-66 | the run from id i is the turn of that id, then, unless it is stuck, the run from id i + 1 |
| SolutionInitialiser.GenerateGraphGreedy | solution_initialiser.py:50-66 | builds nodes 0..8 in key order; the final lists and whether IndexError was raised are exactly `Greedy` of empty lists over the shuffled order; on completion the lists hold 72 ids of nodes and each node from id four up holds exactly four ids below four; IndexError happens only when every list has at least four entries |
| SolutionInitialiser.IndexErrorReachable | solution_initialiser.py:57-66 | the shuffle 0, 2, 3, 4, 5, 6, 7, 8, 1 ends in IndexError, so the generator's stuck outcome can occur |
| SolutionInitialiser.StuckAtOne | solution_initialiser.py:60-66 | turns of ids other than 1 taken while list 1 is empty never get stuck; when every other list is full by the time id 1 comes last, the run ends in IndexError |
| SolutionInitialiser.TurnWhileOneEmpty | solution_initialiser.py:61-66 | while list 1 is empty, a turn of a node other than 1 links it four times with id 0: not stuck, list 1 still empty, no list shorter, the node's list four longer |
| SolutionInitialiser.LastTurnStuck | solution_initialiser.py:61-63 | node 1's turn with its list empty and all others full links it with 0, itself and 3, and then finds the ranking empty |
| SolutionInitialiser.OrderInRange | solution_initialiser.py:57-60 | a shuffle of the key list holds only ids 0..8 |
| SolutionInitialiser.GreedyAdvance | solution_initialiser.py:60-66 | after a stuck turn the whole run ends in that state with IndexError; after a finished turn the invariant holds for one more id and the rest of the run still ends where the whole run does |
| SolutionInitialiser.Turn | solution_initialiser.py:61-66 | the new lists and the stuck flag are exactly `TurnLists` of the old lists: up to four steps, stopping at the first one with an empty ranking; a finished turn keeps the generator's invariant, a stopped one leaves every list with at least four entries |
| SolutionInitialiser.TurnAdvance | solution_initialiser.py:61-66 | a stuck step ends the whole turn in the stuck state; a linking step keeps the turn's invariant with one more edge |
| SolutionInitialiser.TurnComplete | solution_initialiser.py:61-66 | a turn that took four steps is finished and ends unstuck |
| SolutionInitialiser.Step | solution_initialiser.py:63-65 | the new lists and the stuck flag are exactly `StepLists` of the old lists; the partner id is the smallest list length, the degree of the first ranked entry, and is below four |
| SolutionInitialiser.StepOnLists | solution_initialiser.py:63-65 | what `Pick` found and the `Link` that followed give the lists `StepLists` computes, with a partner id below four |
| SolutionInitialiser.Pick | solution_initialiser.py:63 | no partner exactly when no list is shorter than four; otherwise the partner id is the smallest list length, which is below four |
| SolutionInitialiser.LinkNodes | solution_initialiser.py:64-65 | the lists become `Link` of the old lists |
| SolutionInitialiser.NewGraph | solution_initialiser.py:51-54 | fresh nodes 0..8, in key order, each with an empty list |
| SolutionInitialiser.KeysAreIds | solution_initialiser.py:51-54 | a dictionary built over the ids 0..8 has exactly those keys |
| SolutionInitialiser.PickOnLists | solution_initialiser.py:38-47 | read on the lists: no partner exactly when every list holds at least four ids, otherwise the partner is the smallest list length |
| SolutionInitialiser.NoCandidates | solution_initialiser.py:63 | an empty ranking means every list has at least four entries |
| SolutionInitialiserLp.Mismatches | solution_initialiser_lp.py:61-62 | the number of sums that are not four is zero exactly when every sum is four |
| SolutionInitialiserLp.ColumnMismatches | solution_initialiser_lp.py:61 | no column mismatch exactly when every column sums to four |
| SolutionInitialiserLp.RowMismatches | solution_initialiser_lp.py:62 | no row mismatch exactly when every row sums to four |
| SolutionInitialiserLp.AssertCompliance | solution_initialiser_lp.py:60-65 | ValueError exactly when some column sum or some row sum is not four, or the diagonal does not sum to zero |
| SolutionInitialiserLp.CompliantIsRegular | solution_initialiser_lp.py:60-65 | a symmetric 0/1 matrix that passes the check is a simple graph in which every node has four neighbours |
| SolutionInitialiserLp.ZeroTrace | solution_initialiser_lp.py:63 | a non-negative diagonal that sums to zero is all zero |
| SolutionInitialiserLp.DotCounts | solution_initialiser_lp.py:69 | for a 0/1 matrix, entry (i, j) of the square counts the k with `m[i][k] == 1` and `m[k][j] == 1` |
| SolutionInitialiserLp.BaseCountsCommonNeighbours | solution_initialiser_lp.py:69 | for a symmetric 0/1 matrix, entry (i, j) of the square is the number of common neighbours |
| SolutionInitialiserLp.ScoreCells | solution_initialiser_lp.py:69-71 | a triangle cell marks one common neighbour whether or not the pair is connected, and a triangle motif only together with the edge; a squares cell is 1 exactly on a square motif |
| SolutionInitialiserLp.UpperTriangleBound | solution_initialiser_lp.py:70 | the upper triangle of a 0/1 matrix sums to at most n(n+1)/2 |
| SolutionInitialiserLp.SquaresBound | solution_initialiser_lp.py:71 | for a matrix without negative entries, the clipped squares matrix is 0/1 and its upper triangle sums to at most n(n+1)/2 |
| SolutionInitialiserLp.ClipDifference | solution_initialiser_lp.py:71 | clipping a 0/1 matrix minus a matrix without negative entries leaves a 0/1 matrix with 1 exactly where the first is 1 and the second 0 |
| SolutionInitialiserLp.UpperOnesTotal | solution_initialiser_lp.py:70-71 | the upper triangle (diagonal included) of a 0/1 matrix sums to the number of cells `i <= j` holding 1 |
| SolutionInitialiserLp.TrianglePairsAre | solution_initialiser_lp.py:69-70 | the ones on or above the diagonal of `base == 1` are the pairs `i <= j` whose entry of `m @ m` is 1 |
| SolutionInitialiserLp.SquarePairsAre | solution_initialiser_lp.py:69-71 | for a matrix without negative entries the clipped squares matrix is 0/1 and its upper triangle sums to the number of pairs `i <= j` with `(m @ m)[i][j] == 2` and `m[i][j] == 0` |
| SolutionInitialiserLp.GetScore | solution_initialiser_lp.py:68-72 | the triangle count is the number of pairs `i <= j` with `(m @ m)[i][j] == 1`; for a matrix without negative entries the squares count is the number of pairs `i <= j` with `(m @ m)[i][j] == 2` and `m[i][j] == 0`; both are non-negative and at most n(n+1)/2 (the squares bound for a matrix without negative entries) |
| SolutionInitialiserLp.ScoreCountsMotifs | solution_initialiser_lp.py:68-72 | for a symmetric 0/1 matrix the triangle count is the number of pairs `i <= j` with exactly one common neighbour, and the squares count is the number of square-motif pairs `i <= j` |

## Left out

- The simulated-annealing search (swap proposal, acceptance, cooling, best-ever snapshot) does not exist in this code. `Solver` only stores `temperature`, `alpha` and `iterations`, and the model stores them as given.
- The `f64` fields are stored as `real`. No floating-point arithmetic is done on them.
- The random number generator and `shuffle` are replaced by parameters. A pass takes one shuffle per node, each a permutation of the other ids. The restart loop takes one such list per round. The generator takes a permutation of its keys.
- `par_iter` in `get_cost` is counted sequentially. The count is the same.
- `println!` and `print` output is not modelled (no effect on state).
- `initialise_graph` in `solution_initialiser_lp.py` and that file's script lines are not part of this model. They call the PuLP/CBC linear-programming solver, a foreign library.
- `remove_node` in both Python files is not modelled: it raises KeyError for an id that is not in the dictionary (`scratch.py:35`, `solution_initialiser.py:33`), and TypeError otherwise, because it iterates a node object.
- The commented-out block and the empty `Solver` stub of `scratch.py` are not modelled.
- The `__repr__` of `scratch.py` is output formatting and is not modelled.
- SolverMain.Graph.InitialiseSoln: the source loops until a pass succeeds, with no bound. The model runs at most one pass per supplied round and reports whether one succeeded. Termination of the unbounded loop is not modelled.
- SolverMain.Graph.AddNode: Rust moves the node into the vector. The model demands instead that the node object is not already stored (`node !in nodes`). The vector insert's own panic on `node.id > len` is a precondition.
- SolverMain.Graph.constructor: `node_pairs` is a `Vec<Vec<usize>>` of two-element vectors in the source. It is modelled as a sequence of pairs.
- SolverMain.Solver.GetCost: an underflowing `usize` subtraction panics when overflow checks are on (debug builds) and wraps around in release builds. The function asks its caller to rule underflow out, and `GetCostRange` shows the nine-node configuration always does.
- SolverMain.Graph.SolnInitialiser: the degree guard is the literal 4 in the source (`DEGREE_CAP`). `check_num_edges` compares with `EDGES`. Both are 4 and are kept apart in the model.
- The unused `rank_nodes` call before the shuffle (`solution_initialiser.py:55`) in `generate_graph_greedy` has no effect on the graph and is left out.
- SolutionInitialiser.GenerateGraphGreedy: a KeyError cannot occur, because the partner id is a degree below four and so always a key. The model has no KeyError outcome.
- Python ids are modelled as `int`. The generator only ever creates the ids 0..8.
- SolutionInitialiserLp.GetScore: matrices are square `seq<seq<int>>`. Non-square arrays, where `@` fails, are excluded by the precondition. The numpy integer width is unbounded here.
- SolutionInitialiserLp.GetScore: the squares count is bounded above only for matrices without negative entries. A negative entry can make the subtracted cell exceed one.
- SolutionInitialiserLp.AssertCompliance: the array is never changed, since it is a pure function of its argument. Raising is modelled as the `ValueError` result.
