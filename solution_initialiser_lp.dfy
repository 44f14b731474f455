/**
 * The adjacency-matrix prototype: a compliance check on a square integer matrix and a
 * score built from the matrix square, each written as the array expression it is.
 * `AdjOf` reads a 0/1 matrix as neighbour sets, which ties the check to regularity and
 * the score's cells to the motifs of the adjacency model.
 */
module SolutionInitialiserLp {
  import opened Adjacency

  /** The degree every node should have. */
  const NUM_EDGES: int := 4

  type Matrix = seq<seq<int>>

  predicate IsSquare(m: Matrix) {
    forall i :: 0 <= i < |m| ==> |m[i]| == |m|
  }

  /** A square matrix whose entries are all 0 or 1. */
  predicate Binary(m: Matrix) {
    IsSquare(m) && forall i, j :: 0 <= i < |m| && 0 <= j < |m| ==> m[i][j] == 0 || m[i][j] == 1
  }

  /** A square matrix with no negative entry. */
  predicate NonNegative(m: Matrix) {
    IsSquare(m) && forall i, j :: 0 <= i < |m| && 0 <= j < |m| ==> m[i][j] >= 0
  }

  predicate SymmetricMatrix(m: Matrix)
    requires IsSquare(m)
  {
    forall i, j :: 0 <= i < |m| && 0 <= j < |m| ==> m[i][j] == m[j][i]
  }

  /** Sum of a row. */
  function RowTotal(r: seq<int>): int {
    if r == [] then 0 else RowTotal(r[..|r| - 1]) + r[|r| - 1]
  }

  /** Sum of column j over the first k rows. */
  function ColumnTotal(m: Matrix, j: nat, k: nat): int
    requires IsSquare(m) && j < |m| && k <= |m|
  {
    if k == 0 then 0 else ColumnTotal(m, j, k - 1) + m[k - 1][j]
  }

  /** Sum of the diagonal over the first k rows. */
  function Trace(m: Matrix, k: nat): int
    requires IsSquare(m) && k <= |m|
  {
    if k == 0 then 0 else Trace(m, k - 1) + m[k - 1][k - 1]
  }

  /** Sum of every entry, row by row. */
  function Total(m: Matrix): int {
    if m == [] then 0 else Total(m[..|m| - 1]) + RowTotal(m[|m| - 1])
  }

  /** The sum along axis 0 (one sum per column). */
  function ColumnSums(m: Matrix): (r: seq<int>)
    requires IsSquare(m)
    ensures |r| == |m| && forall j :: 0 <= j < |m| ==> r[j] == ColumnTotal(m, j, |m|)
  {
    seq(|m|, j requires 0 <= j < |m| => ColumnTotal(m, j, |m|))
  }

  /** The sum along axis 1 (one sum per row). */
  function RowSums(m: Matrix): (r: seq<int>)
    requires IsSquare(m)
    ensures |r| == |m| && forall i :: 0 <= i < |m| ==> r[i] == RowTotal(m[i])
  {
    seq(|m|, i requires 0 <= i < |m| => RowTotal(m[i]))
  }

  /** How many sums differ from NUM_EDGES; none exactly when every one is NUM_EDGES. */
  function Mismatches(sums: seq<int>): (c: nat)
    ensures c <= |sums|
    ensures c == 0 <==> forall i :: 0 <= i < |sums| ==> sums[i] == NUM_EDGES
  {
    if sums == [] then 0
    else
      var n := |sums| - 1;
      assert forall i :: 0 <= i < n ==> sums[..n][i] == sums[i];
      Mismatches(sums[..n]) + if sums[n] != NUM_EDGES then 1 else 0
  }

  datatype Compliance = Compliant | ValueError

  /** Every column sums to NUM_EDGES. */
  predicate ColumnsComply(m: Matrix)
    requires IsSquare(m)
  {
    forall j :: 0 <= j < |m| ==> ColumnTotal(m, j, |m|) == NUM_EDGES
  }

  /** Every row sums to NUM_EDGES. */
  predicate RowsComply(m: Matrix)
    requires IsSquare(m)
  {
    forall i :: 0 <= i < |m| ==> RowTotal(m[i]) == NUM_EDGES
  }

  /**
   * The compliance check: a ValueError exactly when some column sum or some row sum is
   * not NUM_EDGES, or the diagonal does not sum to zero.
   */
  function AssertCompliance(m: Matrix): (r: Compliance)
    requires IsSquare(m)
    ensures r == Compliant <==> ColumnsComply(m) && RowsComply(m) && Trace(m, |m|) == 0
  {
    var rows := Mismatches(ColumnSums(m));
    var cols := Mismatches(RowSums(m));
    var diag := Trace(m, |m|);
    ColumnMismatches(m);
    RowMismatches(m);
    if rows != 0 || cols != 0 || diag != 0 then ValueError else Compliant
  }

  lemma ColumnMismatches(m: Matrix)
    requires IsSquare(m)
    ensures Mismatches(ColumnSums(m)) == 0 <==> ColumnsComply(m)
  {
    var cs := ColumnSums(m);
    if !ColumnsComply(m) {
      var j :| 0 <= j < |m| && ColumnTotal(m, j, |m|) != NUM_EDGES;
      assert cs[j] != NUM_EDGES;
    }
  }

  lemma RowMismatches(m: Matrix)
    requires IsSquare(m)
    ensures Mismatches(RowSums(m)) == 0 <==> RowsComply(m)
  {
    var rs := RowSums(m);
    if !RowsComply(m) {
      var i :| 0 <= i < |m| && RowTotal(m[i]) != NUM_EDGES;
      assert rs[i] != NUM_EDGES;
    }
  }

  /** Entry (i, j) of a * b, summed over the first k terms. */
  function Dot(a: Matrix, b: Matrix, i: nat, j: nat, k: nat): int
    requires IsSquare(a) && IsSquare(b) && |a| == |b|
    requires i < |a| && j < |a| && k <= |a|
  {
    if k == 0 then 0 else Dot(a, b, i, j, k - 1) + a[i][k - 1] * b[k - 1][j]
  }

  /** The matrix product a @ b. */
  function MatMul(a: Matrix, b: Matrix): (r: Matrix)
    requires IsSquare(a) && IsSquare(b) && |a| == |b|
    ensures IsSquare(r) && |r| == |a|
    ensures forall i, j :: 0 <= i < |a| && 0 <= j < |a| ==> r[i][j] == Dot(a, b, i, j, |a|)
  {
    seq(|a|, i requires 0 <= i < |a| => seq(|a|, j requires 0 <= j < |a| => Dot(a, b, i, j, |a|)))
  }

  /** The elementwise test `a == v`, as 1 or 0. */
  function Indicator(a: Matrix, v: int): (r: Matrix)
    requires IsSquare(a)
    ensures Binary(r) && |r| == |a|
    ensures forall i, j :: 0 <= i < |a| && 0 <= j < |a| ==> (r[i][j] == 1 <==> a[i][j] == v)
  {
    seq(|a|, i requires 0 <= i < |a| => seq(|a|, j requires 0 <= j < |a| => if a[i][j] == v then 1 else 0))
  }

  /** The elementwise difference a - b. */
  function Subtract(a: Matrix, b: Matrix): (r: Matrix)
    requires IsSquare(a) && IsSquare(b) && |a| == |b|
    ensures IsSquare(r) && |r| == |a|
    ensures forall i, j :: 0 <= i < |a| && 0 <= j < |a| ==> r[i][j] + b[i][j] == a[i][j]
  {
    seq(|a|, i requires 0 <= i < |a| => seq(|a|, j requires 0 <= j < |a| => a[i][j] - b[i][j]))
  }

  /** Negative entries raised to zero. */
  function Clip(a: Matrix): (r: Matrix)
    requires IsSquare(a)
    ensures NonNegative(r) && |r| == |a|
    ensures forall i, j :: 0 <= i < |a| && 0 <= j < |a| ==> (a[i][j] < 0 ==> r[i][j] == 0) && (a[i][j] >= 0 ==> r[i][j] == a[i][j])
  {
    seq(|a|, i requires 0 <= i < |a| => seq(|a|, j requires 0 <= j < |a| => if a[i][j] < 0 then 0 else a[i][j]))
  }

  /** The upper triangle, diagonal included; everything below it is zero. */
  function Triu(a: Matrix): (r: Matrix)
    requires IsSquare(a)
    ensures IsSquare(r) && |r| == |a|
    ensures forall i, j :: 0 <= i < |a| && 0 <= j < |a| ==> r[i][j] == if i <= j then a[i][j] else 0
  {
    seq(|a|, i requires 0 <= i < |a| => seq(|a|, j requires 0 <= j < |a| => if i <= j then a[i][j] else 0))
  }

  /** The cells (i, j) with i <= j that hold 1. */
  ghost function UpperOnes(a: Matrix): set<(nat, nat)>
    requires IsSquare(a)
  {
    UpperOnesBelow(a, |a|)
  }

  /** The cells (i, j) with i < k and i <= j that hold 1. */
  ghost function UpperOnesBelow(a: Matrix, k: nat): set<(nat, nat)>
    requires IsSquare(a) && k <= |a|
  {
    set i: nat, j: nat | i < k && i <= j < |a| && a[i][j] == 1 :: (i, j)
  }

  /** The pairs i <= j whose entry of the matrix square is 1. */
  ghost function TrianglePairs(m: Matrix): set<(nat, nat)>
    requires IsSquare(m)
  {
    set i: nat, j: nat | i <= j < |m| && MatMul(m, m)[i][j] == 1 :: (i, j)
  }

  /** The pairs i <= j whose entry of the matrix square is 2 and whose own entry is 0. */
  ghost function SquarePairs(m: Matrix): set<(nat, nat)>
    requires IsSquare(m)
  {
    set i: nat, j: nat | i <= j < |m| && MatMul(m, m)[i][j] == 2 && m[i][j] == 0 :: (i, j)
  }

  /**
   * The score: `triangles` is the number of pairs i <= j (the diagonal included) whose
   * entry of the matrix square is 1; `squares`, for a matrix without negative entries,
   * the number of pairs i <= j whose entry of the square is 2 and whose own entry is 0.
   * Both lie in [0, n(n+1)/2].
   */
  function GetScore(m: Matrix): (score: (int, int))
    requires IsSquare(m)
    ensures score.0 == |TrianglePairs(m)|
    ensures NonNegative(m) ==> score.1 == |SquarePairs(m)|
    ensures 0 <= score.0 <= |m| * (|m| + 1) / 2
    ensures 0 <= score.1
    ensures NonNegative(m) ==> score.1 <= |m| * (|m| + 1) / 2
  {
    var base := MatMul(m, m);
    var tri := Triu(Indicator(base, 1));
    var sq := Triu(Clip(Subtract(Indicator(base, 2), m)));
    UpperTriangleBound(Indicator(base, 1));
    UpperOnesTotal(Indicator(base, 1));
    TrianglePairsAre(m);
    NonNegativeTotal(tri);
    NonNegativeTotal(sq);
    SquaresBound(Indicator(base, 2), m);
    SquarePairsAre(m);
    (Total(tri), Total(sq))
  }

  /** The cells of the indicator of 1 on or above the diagonal are the triangle pairs. */
  lemma TrianglePairsAre(m: Matrix)
    requires IsSquare(m)
    ensures UpperOnes(Indicator(MatMul(m, m), 1)) == TrianglePairs(m)
  {
    var ind := Indicator(MatMul(m, m), 1);
    forall p | p in UpperOnes(ind) ensures p in TrianglePairs(m) {
      var i, j := p.0, p.1;
      assert ind[i][j] == 1;
    }
    forall p | p in TrianglePairs(m) ensures p in UpperOnes(ind) {
      var i, j := p.0, p.1;
      assert ind[i][j] == 1;
    }
    assert UpperOnes(ind) == TrianglePairs(m);
  }

  /**
   * For a matrix without negative entries, the clipped difference is a 0/1 matrix whose
   * ones on or above the diagonal are the square pairs.
   */
  lemma SquarePairsAre(m: Matrix)
    requires IsSquare(m)
    ensures NonNegative(m) ==> Binary(Clip(Subtract(Indicator(MatMul(m, m), 2), m)))
    ensures NonNegative(m) ==>
      Total(Triu(Clip(Subtract(Indicator(MatMul(m, m), 2), m)))) == |SquarePairs(m)|
  {
    if NonNegative(m) {
      var base := MatMul(m, m);
      var ind := Indicator(base, 2);
      var c := Clip(Subtract(ind, m));
      ClipDifference(ind, m);
      forall p | p in UpperOnes(c) ensures p in SquarePairs(m) {
        assert c[p.0][p.1] == 1;
      }
      forall p | p in SquarePairs(m) ensures p in UpperOnes(c) {
        assert ind[p.0][p.1] == 1;
      }
      assert UpperOnes(c) == SquarePairs(m);
      UpperOnesTotal(c);
    }
  }

  /**
   * Taking a matrix without negative entries away from a 0/1 matrix and clipping leaves a
   * 0/1 matrix holding 1 exactly where the first holds 1 and the second 0.
   */
  lemma ClipDifference(ind: Matrix, m: Matrix)
    requires Binary(ind) && NonNegative(m) && |ind| == |m|
    ensures Binary(Clip(Subtract(ind, m)))
    ensures forall i, j :: 0 <= i < |m| && 0 <= j < |m| ==>
      (Clip(Subtract(ind, m))[i][j] == 1 <==> ind[i][j] == 1 && m[i][j] == 0)
  {
  }

  /** The upper triangle of a 0/1 matrix sums to the number of its ones on or above the diagonal. */
  lemma UpperOnesTotal(a: Matrix)
    requires Binary(a)
    ensures Total(Triu(a)) == |UpperOnes(a)|
  {
    TriuPrefixCounts(a, |a|);
    assert Triu(a)[..|a|] == Triu(a);
  }

  lemma {:induction false} TriuPrefixCounts(a: Matrix, k: nat)
    requires Binary(a) && k <= |a|
    ensures Total(Triu(a)[..k]) == |UpperOnesBelow(a, k)|
  {
    if k > 0 {
      var t := Triu(a);
      var i := k - 1;
      TriuPrefixCounts(a, i);
      TotalPrefix(t, i);
      RowPairsCount(t[i], i);
      UpperOnesNextRow(a, i);
    }
  }

  /** A prefix one row longer totals the shorter prefix plus that row. */
  lemma TotalPrefix(m: Matrix, i: nat)
    requires i < |m|
    ensures Total(m[..i + 1]) == Total(m[..i]) + RowTotal(m[i])
  {
    assert m[..i + 1][..i] == m[..i];
  }

  /** The cells below row i + 1 are those below row i and, disjoint from them, the ones of row i of the upper triangle. */
  lemma UpperOnesNextRow(a: Matrix, i: nat)
    requires Binary(a) && i < |a|
    ensures var row := set j: nat | j < |a| && Triu(a)[i][j] == 1 :: (i, j);
      UpperOnesBelow(a, i + 1) == UpperOnesBelow(a, i) + row && UpperOnesBelow(a, i) * row == {}
  {
    var t := Triu(a);
    var row := set j: nat | j < |a| && t[i][j] == 1 :: (i, j);
    var before := UpperOnesBelow(a, i);
    forall p | p in UpperOnesBelow(a, i + 1) ensures p in before + row {
      if p.0 < i {
        assert p in before;
      } else {
        assert t[i][p.1] == 1;
      }
    }
    assert UpperOnesBelow(a, i + 1) == before + row;
  }

  /** A 0/1 row sums to the number of its ones, each counted as a cell of row i. */
  lemma {:induction false} RowPairsCount(r: seq<int>, i: nat)
    requires forall j :: 0 <= j < |r| ==> r[j] == 0 || r[j] == 1
    ensures RowTotal(r) == |set j: nat | j < |r| && r[j] == 1 :: (i, j)|
  {
    if r != [] {
      var n := |r| - 1;
      RowPairsCount(r[..n], i);
      var before := set j: nat | j < n && r[..n][j] == 1 :: (i, j);
      var after := set j: nat | j < |r| && r[j] == 1 :: (i, j);
      if r[n] == 1 {
        assert after == before + {(i, n)};
      } else {
        assert after == before;
      }
    }
  }

  /**
   * Taking a matrix without negative entries away from a 0/1 matrix and clipping leaves a
   * 0/1 matrix, whose upper triangle sums to at most n(n+1)/2.
   */
  lemma SquaresBound(ind: Matrix, m: Matrix)
    requires Binary(ind) && IsSquare(m) && |ind| == |m|
    ensures NonNegative(m) ==> Total(Triu(Clip(Subtract(ind, m)))) <= |m| * (|m| + 1) / 2
  {
    if NonNegative(m) {
      var c := Clip(Subtract(ind, m));
      assert Binary(c);
      UpperTriangleBound(c);
    }
  }

  /** A row of non-negative entries has a non-negative sum. */
  lemma {:induction false} NonNegativeRow(r: seq<int>)
    requires forall j :: 0 <= j < |r| ==> r[j] >= 0
    ensures RowTotal(r) >= 0
  {
    if r != [] {
      NonNegativeRow(r[..|r| - 1]);
    }
  }

  /** A matrix of non-negative entries has a non-negative sum. */
  lemma {:induction false} NonNegativeTotal(m: Matrix)
    requires NonNegative(m)
    ensures Total(m) >= 0
  {
    NonNegativePrefix(m, |m|);
    assert m[..|m|] == m;
  }

  lemma {:induction false} NonNegativePrefix(m: Matrix, k: nat)
    requires NonNegative(m) && k <= |m|
    ensures Total(m[..k]) >= 0
  {
    if k > 0 {
      NonNegativePrefix(m, k - 1);
      assert m[..k][..k - 1] == m[..k - 1];
      NonNegativeRow(m[k - 1]);
    }
  }

  /** A 0/1 row that is zero before position i sums to at most |r| - i. */
  lemma {:induction false} RowBound(r: seq<int>, i: nat)
    requires i <= |r|
    requires forall j :: 0 <= j < |r| ==> r[j] == 0 || r[j] == 1
    requires forall j :: 0 <= j < i ==> r[j] == 0
    ensures RowTotal(r) <= |r| - i
  {
    if r != [] {
      var n := |r| - 1;
      if i <= n {
        RowBound(r[..n], i);
      } else {
        RowBound(r[..n], n);
      }
    }
  }

  /** The first k rows of the upper triangle of a 0/1 matrix sum to at most k*n - k(k-1)/2. */
  lemma {:induction false} TriuPrefixBound(a: Matrix, k: nat)
    requires Binary(a) && k <= |a|
    ensures 2 * Total(Triu(a)[..k]) <= 2 * k * |a| - k * (k - 1)
  {
    if k > 0 {
      var t := Triu(a);
      TriuPrefixBound(a, k - 1);
      assert t[..k][..k - 1] == t[..k - 1];
      RowBound(t[k - 1], k - 1);
      assert 2 * k * |a| - k * (k - 1) == 2 * (k - 1) * |a| - (k - 1) * (k - 2) + 2 * (|a| - (k - 1));
    }
  }

  /** The upper triangle of a 0/1 matrix sums to at most n(n+1)/2. */
  lemma UpperTriangleBound(a: Matrix)
    requires Binary(a)
    ensures Total(Triu(a)) <= |a| * (|a| + 1) / 2
  {
    var n := |a|;
    TriuPrefixBound(a, n);
    assert Triu(a)[..n] == Triu(a);
    assert 2 * n * n - n * (n - 1) == n * (n + 1);
  }

  /** Reads a square 0/1 matrix as neighbour sets: row i lists the columns holding 1. */
  function AdjOf(m: Matrix): (adj: Adj)
    requires IsSquare(m)
    ensures |adj| == |m|
    ensures forall i, k :: 0 <= i < |m| && 0 <= k < |m| ==> (k in adj[i] <==> m[i][k] == 1)
    ensures InRange(adj)
  {
    seq(|m|, i requires 0 <= i < |m| => set k: nat | k < |m| && m[i][k] == 1)
  }

  /** The columns below k where both row i and column j of m hold 1. */
  ghost function CommonBelow(m: Matrix, i: nat, j: nat, k: nat): set<nat>
    requires IsSquare(m) && i < |m| && j < |m| && k <= |m|
  {
    set t: nat | t < k && m[i][t] == 1 && m[t][j] == 1
  }

  lemma {:induction false} DotCounts(m: Matrix, i: nat, j: nat, k: nat)
    requires Binary(m) && i < |m| && j < |m| && k <= |m|
    ensures Dot(m, m, i, j, k) == |CommonBelow(m, i, j, k)|
  {
    if k > 0 {
      DotCounts(m, i, j, k - 1);
      var t := k - 1;
      if m[i][t] == 1 && m[t][j] == 1 {
        assert CommonBelow(m, i, j, k) == CommonBelow(m, i, j, t) + {t};
      } else {
        assert CommonBelow(m, i, j, k) == CommonBelow(m, i, j, t);
      }
    }
  }

  /**
   * For a symmetric 0/1 matrix, entry (i, j) of the square counts the common neighbours
   * of i and j.
   */
  lemma BaseCountsCommonNeighbours(m: Matrix, i: nat, j: nat)
    requires Binary(m) && SymmetricMatrix(m) && i < |m| && j < |m|
    ensures MatMul(m, m)[i][j] == |CommonNeighbours(AdjOf(m), i, j)|
  {
    DotCounts(m, i, j, |m|);
    var adj := AdjOf(m);
    assert CommonBelow(m, i, j, |m|) == adj[i] * adj[j];
  }

  /**
   * On a symmetric 0/1 matrix the score's cells are the motifs: a triangle cell is a pair
   * with exactly one common neighbour (connected or not), and it is a triangle motif when
   * the pair is also connected; a squares cell is 1 exactly on a square motif and 0
   * elsewhere.
   */
  lemma ScoreCells(m: Matrix, i: nat, j: nat)
    requires Binary(m) && SymmetricMatrix(m) && i < |m| && j < |m|
    ensures var base := MatMul(m, m);
      && (Indicator(base, 1)[i][j] == 1 <==> |CommonNeighbours(AdjOf(m), i, j)| == 1)
      && (Indicator(base, 1)[i][j] == 1 && m[i][j] == 1 <==> IsTriangleMotif(AdjOf(m), i, j))
      && Clip(Subtract(Indicator(base, 2), m))[i][j] == if IsSquareMotif(AdjOf(m), i, j) then 1 else 0
  {
    BaseCountsCommonNeighbours(m, i, j);
  }

  /** The pairs i <= j of the graph read from m that share exactly one neighbour. */
  ghost function CommonOnePairs(m: Matrix): set<(nat, nat)>
    requires IsSquare(m)
  {
    set i: nat, j: nat | i <= j < |m| && |CommonNeighbours(AdjOf(m), i, j)| == 1 :: (i, j)
  }

  /** The pairs i <= j of the graph read from m that form a square motif. */
  ghost function SquareMotifPairs(m: Matrix): set<(nat, nat)>
    requires IsSquare(m)
  {
    set i: nat, j: nat | i <= j < |m| && IsSquareMotif(AdjOf(m), i, j) :: (i, j)
  }

  /**
   * On a symmetric 0/1 matrix, `triangles` counts the pairs i <= j with exactly one common
   * neighbour, connected or not, and `squares` counts the square motifs among the pairs i <= j.
   */
  lemma ScoreCountsMotifs(m: Matrix)
    requires Binary(m) && SymmetricMatrix(m)
    ensures GetScore(m).0 == |CommonOnePairs(m)|
    ensures GetScore(m).1 == |SquareMotifPairs(m)|
  {
    forall p | p in TrianglePairs(m) ensures p in CommonOnePairs(m) {
      BaseCountsCommonNeighbours(m, p.0, p.1);
    }
    forall p | p in CommonOnePairs(m) ensures p in TrianglePairs(m) {
      BaseCountsCommonNeighbours(m, p.0, p.1);
    }
    assert TrianglePairs(m) == CommonOnePairs(m);
    forall p | p in SquarePairs(m) ensures p in SquareMotifPairs(m) {
      BaseCountsCommonNeighbours(m, p.0, p.1);
    }
    forall p | p in SquareMotifPairs(m) ensures p in SquarePairs(m) {
      BaseCountsCommonNeighbours(m, p.0, p.1);
    }
    assert SquarePairs(m) == SquareMotifPairs(m);
  }

  /** A 0/1 row sums to the number of its ones. */
  lemma {:induction false} RowTotalCounts(r: seq<int>)
    requires forall j :: 0 <= j < |r| ==> r[j] == 0 || r[j] == 1
    ensures RowTotal(r) == |set t: nat | t < |r| && r[t] == 1|
  {
    if r != [] {
      var n := |r| - 1;
      RowTotalCounts(r[..n]);
      var before := set t: nat | t < n && r[..n][t] == 1;
      var after := set t: nat | t < |r| && r[t] == 1;
      if r[n] == 1 {
        assert after == before + {n};
      } else {
        assert after == before;
      }
    }
  }

  /** A diagonal of non-negative entries that sums to zero is all zero. */
  lemma {:induction false} ZeroTrace(m: Matrix, k: nat)
    requires NonNegative(m) && k <= |m| && Trace(m, k) == 0
    ensures forall i :: 0 <= i < k ==> m[i][i] == 0
  {
    if k > 0 {
      NonNegativeTrace(m, k - 1);
      ZeroTrace(m, k - 1);
    }
  }

  lemma {:induction false} NonNegativeTrace(m: Matrix, k: nat)
    requires NonNegative(m) && k <= |m|
    ensures Trace(m, k) >= 0
  {
    if k > 0 {
      NonNegativeTrace(m, k - 1);
    }
  }

  /**
   * A symmetric 0/1 matrix that passes the check is a simple graph in which every node
   * has exactly NUM_EDGES neighbours.
   */
  lemma CompliantIsRegular(m: Matrix)
    requires Binary(m) && SymmetricMatrix(m)
    requires AssertCompliance(m) == Compliant
    ensures WellFormed(AdjOf(m), NUM_EDGES as nat) && Regular(AdjOf(m), NUM_EDGES as nat)
  {
    var adj := AdjOf(m);
    forall i | 0 <= i < |m| ensures |adj[i]| == NUM_EDGES {
      RowTotalCounts(m[i]);
      assert adj[i] == set t: nat | t < |m[i]| && m[i][t] == 1;
    }
    ZeroTrace(m, |m|);
  }
}
