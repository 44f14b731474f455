/**
 * The candidate ranking of the Python prototypes: keep the `(id, degree)` entries whose
 * degree is below a cap, then sort them by degree with a stable sort, so that entries of
 * equal degree keep the order they had.
 */
module Ranking {

  /** An `(id, degree)` entry. */
  type Entry = (int, nat)

  /** The entries whose degree is below `cap`, in their original order. */
  function Candidates(entries: seq<Entry>, cap: nat): (r: seq<Entry>)
    ensures forall e :: e in r <==> e in entries && e.1 < cap
    ensures |r| <= |entries|
  {
    if entries == [] then []
    else (if entries[0].1 < cap then [entries[0]] else []) + Candidates(entries[1..], cap)
  }

  /** The entries of degree `d`, in their original order. */
  function WithDegree(s: seq<Entry>, d: nat): seq<Entry> {
    if s == [] then []
    else (if s[0].1 == d then [s[0]] else []) + WithDegree(s[1..], d)
  }

  predicate SortedByDegree(s: seq<Entry>) {
    forall a, b :: 0 <= a < b < |s| ==> s[a].1 <= s[b].1
  }

  /** No id occurs twice. */
  predicate DistinctIds(s: seq<Entry>) {
    forall a, b :: 0 <= a < b < |s| ==> s[a].0 != s[b].0
  }

  /** Puts `x` in front of the first entry whose degree is not below its own. */
  function Insert(x: Entry, s: seq<Entry>): seq<Entry> {
    if s == [] || x.1 <= s[0].1 then [x] + s
    else [s[0]] + Insert(x, s[1..])
  }

  /** Stable insertion sort by degree. */
  function SortByDegree(s: seq<Entry>): seq<Entry> {
    if s == [] then [] else Insert(s[0], SortByDegree(s[1..]))
  }

  /** Inserting adds exactly `x`. */
  lemma {:induction false} InsertMultiset(x: Entry, s: seq<Entry>)
    ensures multiset(Insert(x, s)) == multiset(s) + multiset{x}
  {
    if s != [] && x.1 > s[0].1 {
      InsertMultiset(x, s[1..]);
      assert s == [s[0]] + s[1..];
    }
  }

  /** An entry no higher than every entry of a sorted sequence can go in front of it. */
  lemma ConsSorted(h: Entry, t: seq<Entry>)
    requires SortedByDegree(t)
    requires forall i :: 0 <= i < |t| ==> h.1 <= t[i].1
    ensures SortedByDegree([h] + t)
  {
    var r := [h] + t;
    forall a, b | 0 <= a < b < |r| ensures r[a].1 <= r[b].1 {
      assert r[b] == t[b - 1];
      if a > 0 {
        assert r[a] == t[a - 1];
      }
    }
  }

  /** A lower bound on the degrees of `s` and of `x` bounds those of the insertion. */
  lemma {:induction false} InsertBound(x: Entry, s: seq<Entry>, lo: nat)
    requires lo <= x.1 && forall i :: 0 <= i < |s| ==> lo <= s[i].1
    ensures forall i :: 0 <= i < |Insert(x, s)| ==> lo <= Insert(x, s)[i].1
  {
    if s != [] && x.1 > s[0].1 {
      InsertBound(x, s[1..], lo);
    }
  }

  /** Inserting into a sorted sequence keeps it sorted. */
  lemma {:induction false} InsertSorted(x: Entry, s: seq<Entry>)
    requires SortedByDegree(s)
    ensures SortedByDegree(Insert(x, s))
  {
    if s == [] || x.1 <= s[0].1 {
      ConsSorted(x, s);
    } else {
      var t := s[1..];
      assert SortedByDegree(t);
      InsertSorted(x, t);
      InsertBound(x, t, s[0].1);
      ConsSorted(s[0], Insert(x, t));
    }
  }

  /** Inserting into a sorted sequence puts `x` after every entry of its own degree. */
  lemma {:induction false} InsertWithDegree(x: Entry, s: seq<Entry>, d: nat)
    requires SortedByDegree(s)
    ensures WithDegree(Insert(x, s), d) == (if x.1 == d then [x] else []) + WithDegree(s, d)
  {
    if s != [] && x.1 > s[0].1 {
      assert SortedByDegree(s[1..]);
      InsertWithDegree(x, s[1..], d);
      var t := Insert(x, s[1..]);
      assert Insert(x, s) == [s[0]] + t;
      assert ([s[0]] + t)[1..] == t;
      assert s == [s[0]] + s[1..];
      if x.1 == d {
        assert s[0].1 < d;
      }
    }
  }

  /**
   * The sort orders by degree, is a permutation of its input, and is stable: the entries of
   * any one degree come out in the order they went in.
   */
  lemma {:induction false} SortFacts(s: seq<Entry>)
    ensures SortedByDegree(SortByDegree(s))
    ensures multiset(SortByDegree(s)) == multiset(s)
    ensures forall d :: WithDegree(SortByDegree(s), d) == WithDegree(s, d)
  {
    if s != [] {
      SortFacts(s[1..]);
      InsertSorted(s[0], SortByDegree(s[1..]));
      InsertMultiset(s[0], SortByDegree(s[1..]));
      assert s == [s[0]] + s[1..];
      assert multiset(s) == multiset{s[0]} + multiset(s[1..]);
      forall d ensures WithDegree(SortByDegree(s), d) == WithDegree(s, d) {
        InsertWithDegree(s[0], SortByDegree(s[1..]), d);
        assert WithDegree(s, d) == (if s[0].1 == d then [s[0]] else []) + WithDegree(s[1..], d);
      }
    }
  }

  /** Below the cap, filtering leaves the entries of one degree as they were. */
  lemma {:induction false} WithDegreeCandidates(s: seq<Entry>, cap: nat, d: nat)
    requires d < cap
    ensures WithDegree(Candidates(s, cap), d) == WithDegree(s, d)
  {
    if s != [] {
      WithDegreeCandidates(s[1..], cap, d);
      var head := if s[0].1 < cap then [s[0]] else [];
      var c := Candidates(s[1..], cap);
      if s[0].1 < cap {
        assert (head + c)[0] == s[0] && (head + c)[1..] == c;
      } else {
        assert head + c == c;
      }
    }
  }

  /** A repeated entry occurs at least twice in the multiset. */
  lemma RepeatCounts(s: seq<Entry>, a: nat, b: nat)
    requires a < b < |s| && s[a] == s[b]
    ensures multiset(s)[s[a]] >= 2
  {
    assert s == s[..a] + [s[a]] + s[a + 1..b] + [s[b]] + s[b + 1..];
  }

  /** In a sequence without repeats every entry occurs at most once. */
  lemma {:induction false} DistinctCounts(s: seq<Entry>, x: Entry)
    requires forall a, b :: 0 <= a < b < |s| ==> s[a] != s[b]
    ensures multiset(s)[x] <= 1
  {
    if s != [] {
      DistinctCounts(s[1..], x);
      assert s == [s[0]] + s[1..];
      if s[0] == x {
        assert x !in s[1..];
      }
    }
  }

  /**
   * The ranking of `entries`: those of degree below `cap`, sorted by degree, entries of equal
   * degree in their original order. When the ids of `entries` are distinct, so are those of
   * the ranking.
   */
  function RankByDegree(entries: seq<Entry>, cap: nat): (r: seq<Entry>)
    ensures forall e :: e in r <==> e in entries && e.1 < cap
    ensures multiset(r) == multiset(Candidates(entries, cap))
    ensures SortedByDegree(r)
    ensures forall d :: WithDegree(r, d) == WithDegree(Candidates(entries, cap), d)
    ensures DistinctIds(entries) ==> DistinctIds(r)
  {
    var c := Candidates(entries, cap);
    SortFacts(c);
    CandidatesKeepDistinct(entries, cap);
    var r := SortByDegree(c);
    assert forall e :: e in r <==> e in multiset(c);
    PermutationKeepsDistinct(c, r);
    r
  }

  lemma {:induction false} CandidatesKeepDistinct(entries: seq<Entry>, cap: nat)
    ensures DistinctIds(entries) ==> DistinctIds(Candidates(entries, cap))
  {
    if entries != [] && DistinctIds(entries) {
      var rest := entries[1..];
      assert DistinctIds(rest) by {
        forall a, b | 0 <= a < b < |rest| ensures rest[a].0 != rest[b].0 {
          assert rest[a] == entries[a + 1] && rest[b] == entries[b + 1];
        }
      }
      CandidatesKeepDistinct(rest, cap);
      var c := Candidates(rest, cap);
      var r := Candidates(entries, cap);
      forall a, b | 0 <= a < b < |r| ensures r[a].0 != r[b].0 {
        if entries[0].1 < cap {
          assert r == [entries[0]] + c;
          if a == 0 {
            assert r[b] == c[b - 1] && r[b] in rest;
            var m :| 0 <= m < |rest| && rest[m] == r[b];
            assert entries[m + 1] == r[b];
          } else {
            assert r[a] == c[a - 1] && r[b] == c[b - 1];
          }
        } else {
          assert r == c;
        }
      }
    }
  }

  /** A permutation of a sequence with distinct ids has distinct ids. */
  lemma PermutationKeepsDistinct(c: seq<Entry>, r: seq<Entry>)
    requires multiset(r) == multiset(c)
    ensures DistinctIds(c) ==> DistinctIds(r)
  {
    if DistinctIds(c) {
      forall a, b | 0 <= a < b < |r| ensures r[a].0 != r[b].0 {
        if r[a].0 == r[b].0 {
          assert r[a] in multiset(c) && r[b] in multiset(c);
          var i :| 0 <= i < |c| && c[i] == r[a];
          var j :| 0 <= j < |c| && c[j] == r[b];
          assert i == j;
          assert r[a] == r[b];
          RepeatCounts(r, a, b);
          DistinctCounts(c, r[a]);
        }
      }
    }
  }
}
