/**
 * The list of all unordered node pairs that a graph precomputes: every `(i, j)` with
 * `i < j < n`, in the lexicographic order in which 2-combinations of `0 .. n-1` are
 * produced.
 */
module NodePairs {

  type Pair = (nat, nat)

  /** Node count of the reference configuration. */
  const NODES: nat := 9

  /** `(i, j), (i, j+1), ..., (i, n-1)`. */
  function Row(i: nat, j: nat, n: nat): seq<Pair>
    decreases n - j
  {
    if j >= n then [] else [(i, j)] + Row(i, j + 1, n)
  }

  /** The rows of the first components `i, i+1, ..., n-1`, in that order. */
  function PairsFrom(i: nat, n: nat): seq<Pair>
    decreases n - i
  {
    if i >= n then [] else Row(i, i + 1, n) + PairsFrom(i + 1, n)
  }

  /** All 2-combinations of `0 .. n-1`. */
  function AllPairs(n: nat): seq<Pair> {
    PairsFrom(0, n)
  }

  /** Strict lexicographic order on pairs. */
  predicate LexLess(p: Pair, q: Pair) {
    p.0 < q.0 || (p.0 == q.0 && p.1 < q.1)
  }

  predicate StrictlySorted(s: seq<Pair>) {
    forall a, b :: 0 <= a < b < |s| ==> LexLess(s[a], s[b])
  }

  lemma {:induction false} RowFacts(i: nat, j: nat, n: nat)
    ensures |Row(i, j, n)| == if j >= n then 0 else n - j
    ensures forall q :: q in Row(i, j, n) <==> q.0 == i && j <= q.1 < n
    ensures StrictlySorted(Row(i, j, n))
    decreases n - j
  {
    if j < n {
      RowFacts(i, j + 1, n);
      var r := Row(i, j, n);
      assert r == [(i, j)] + Row(i, j + 1, n);
      forall a, b | 0 <= a < b < |r| ensures LexLess(r[a], r[b]) {
        if a == 0 {
          assert r[b] in Row(i, j + 1, n);
        } else {
          assert r[a] == Row(i, j + 1, n)[a - 1] && r[b] == Row(i, j + 1, n)[b - 1];
        }
      }
    }
  }

  lemma {:induction false} PairsFromLength(i: nat, n: nat)
    ensures 2 * |PairsFrom(i, n)| == if i >= n then 0 else (n - i) * (n - i - 1)
    decreases n - i
  {
    if i < n {
      PairsFromLength(i + 1, n);
      RowFacts(i, i + 1, n);
      var m := n - i;
      assert 2 * |PairsFrom(i, n)| == 2 * (m - 1) + (m - 1) * (m - 2);
      Triangular(m);
    }
  }

  lemma Triangular(m: nat)
    requires m >= 1
    ensures 2 * (m - 1) + (m - 1) * (m - 2) == m * (m - 1)
  {
  }

  lemma {:induction false} PairsFromFacts(i: nat, n: nat)
    ensures forall q :: q in PairsFrom(i, n) <==> i <= q.0 < q.1 < n
    ensures StrictlySorted(PairsFrom(i, n))
    decreases n - i
  {
    if i < n {
      PairsFromFacts(i + 1, n);
      RowFacts(i, i + 1, n);
      var row, rest := Row(i, i + 1, n), PairsFrom(i + 1, n);
      var s := row + rest;
      assert s == PairsFrom(i, n);
      forall q ensures q in s <==> i <= q.0 < q.1 < n {
        assert q in s <==> q in row || q in rest;
      }
      forall a, b | 0 <= a < b < |s| ensures LexLess(s[a], s[b]) {
        if b < |row| {
          assert s[a] == row[a] && s[b] == row[b];
        } else if a < |row| {
          assert s[a] == row[a] && s[a] in row;
          assert s[b] == rest[b - |row|] && s[b] in rest;
        } else {
          assert s[a] == rest[a - |row|] && s[b] == rest[b - |row|];
        }
      }
    }
  }

  /**
   * The pair list holds exactly the pairs `i < j < n`, each once, in strictly increasing
   * lexicographic order, and there are `n * (n - 1) / 2` of them.
   */
  lemma AllPairsFacts(n: nat)
    ensures |AllPairs(n)| == n * (n - 1) / 2
    ensures forall q :: q in AllPairs(n) <==> q.0 < q.1 < n
    ensures StrictlySorted(AllPairs(n))
  {
    PairsFromLength(0, n);
    PairsFromFacts(0, n);
  }

  /** The pair list of the reference configuration. */
  function ReferencePairs(): seq<Pair> {
    AllPairs(NODES)
  }

  /** Both ids of every pair name one of the n nodes. */
  lemma AllPairsInRange(n: nat)
    ensures forall k :: 0 <= k < |AllPairs(n)| ==> AllPairs(n)[k].0 < n && AllPairs(n)[k].1 < n
  {
    PairsFromFacts(0, n);
    forall k | 0 <= k < |AllPairs(n)| ensures AllPairs(n)[k].0 < n && AllPairs(n)[k].1 < n {
      assert AllPairs(n)[k] in AllPairs(n);
    }
  }

  /** Nine nodes give thirty-six pairs. */
  lemma NinePairs()
    ensures |AllPairs(NODES)| == 36
  {
    AllPairsFacts(NODES);
  }
}
