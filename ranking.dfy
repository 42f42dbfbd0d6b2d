/** The ordering `update_results` puts on the worker's rows: by relevance,
    highest first, rows of equal relevance keeping the order in which the
    walk met them (a stable sort run with `reverse=True`). The sort is
    defined here by insertion; `RankUnique` shows that no other arrangement
    is sorted and stable, so this is the order any stable sort produces. */
module Ranking {
  import opened Search
  import opened Seqs

  /** Relevance never increases from one row to a later one. */
  predicate NonIncreasing(s: seq<SearchResult>) {
    forall i, j :: 0 <= i < j < |s| ==> s[i].relevance >= s[j].relevance
  }

  /** The rows of relevance `k`, in their order in `s`. Two arrangements that
      agree on this for every `k` order ties the same way. */
  function WithRelevance(s: seq<SearchResult>, k: nat): seq<SearchResult> {
    if s == [] then []
    else (if s[0].relevance == k then [s[0]] else []) + WithRelevance(s[1..], k)
  }

  /** Puts `x` into the sorted `s` after every row at least as relevant. */
  function InsertByRelevance(x: SearchResult, s: seq<SearchResult>): seq<SearchResult> {
    if s == [] then [x]
    else if s[0].relevance >= x.relevance then [s[0]] + InsertByRelevance(x, s[1..])
    else [x] + s
  }

  /** The rows sorted by relevance, highest first, ties in their given order. */
  function RankByRelevance(s: seq<SearchResult>): seq<SearchResult> {
    if s == [] then []
    else InsertByRelevance(s[|s| - 1], RankByRelevance(s[..|s| - 1]))
  }

  /** A row is kept by the filter exactly when it is in `s` with relevance `k`. */
  lemma {:induction false} WithRelevanceMembers(s: seq<SearchResult>, k: nat, x: SearchResult)
    ensures x in WithRelevance(s, k) <==> x in s && x.relevance == k
  {
    if s != [] {
      WithRelevanceMembers(s[1..], k, x);
      assert x in s <==> x == s[0] || x in s[1..];
    }
  }

  /** Filtering distributes over concatenation. */
  lemma {:induction false} WithRelevanceAppend(a: seq<SearchResult>, b: seq<SearchResult>, k: nat)
    ensures WithRelevance(a + b, k) == WithRelevance(a, k) + WithRelevance(b, k)
  {
    if a == [] {
      assert a + b == b;
    } else {
      var h := if a[0].relevance == k then [a[0]] else [];
      WithRelevanceAppend(a[1..], b, k);
      assert (a + b)[1..] == a[1..] + b;
      assert WithRelevance(a + b, k) == h + WithRelevance(a[1..] + b, k);
      AppendAssoc(h, WithRelevance(a[1..], k), WithRelevance(b, k));
    }
  }

  /** The first row of a sorted sequence is at least as relevant as any row. */
  lemma HeadBound(s: seq<SearchResult>, x: SearchResult)
    requires NonIncreasing(s) && x in s
    ensures s[0].relevance >= x.relevance
  {
    var i :| 0 <= i < |s| && s[i] == x;
    if i > 0 {
      assert s[0].relevance >= s[i].relevance;
    }
  }

  /** A row at least as relevant as every row of a sorted sequence can go in
      front of it. */
  lemma ConsSorted(h: SearchResult, rest: seq<SearchResult>)
    requires NonIncreasing(rest)
    requires forall y :: y in rest ==> h.relevance >= y.relevance
    ensures NonIncreasing([h] + rest)
  {
    forall i, j | 0 <= i < j < |[h] + rest| ensures ([h] + rest)[i].relevance >= ([h] + rest)[j].relevance {
      assert ([h] + rest)[j] == rest[j - 1];
      if i > 0 {
        assert ([h] + rest)[i] == rest[i - 1];
      } else {
        assert rest[j - 1] in rest;
      }
    }
  }

  /** Inserting adds exactly `x`. */
  lemma {:induction false} InsertPermutation(x: SearchResult, s: seq<SearchResult>)
    ensures multiset(InsertByRelevance(x, s)) == multiset(s) + multiset{x}
  {
    if s != [] && s[0].relevance >= x.relevance {
      InsertPermutation(x, s[1..]);
      assert s == [s[0]] + s[1..];
    }
  }

  /** Inserting into a sorted sequence keeps it sorted and adds exactly `x`. */
  lemma {:induction false} InsertSorted(x: SearchResult, s: seq<SearchResult>)
    requires NonIncreasing(s)
    ensures NonIncreasing(InsertByRelevance(x, s))
    ensures multiset(InsertByRelevance(x, s)) == multiset(s) + multiset{x}
  {
    InsertPermutation(x, s);
    if s == [] {
    } else if s[0].relevance >= x.relevance {
      var rest := InsertByRelevance(x, s[1..]);
      assert NonIncreasing(s[1..]);
      InsertSorted(x, s[1..]);
      forall y | y in rest ensures s[0].relevance >= y.relevance {
        assert y in multiset(rest);
        if y != x {
          assert y in s[1..];
          HeadBound(s, y);
        }
      }
      ConsSorted(s[0], rest);
    } else {
      forall y | y in s ensures x.relevance >= y.relevance {
        HeadBound(s, y);
      }
      ConsSorted(x, s);
    }
  }

  /** When no row has relevance `k`, the filter keeps nothing. */
  lemma {:induction false} NoneWithRelevance(s: seq<SearchResult>, k: nat)
    requires forall i :: 0 <= i < |s| ==> s[i].relevance != k
    ensures WithRelevance(s, k) == []
  {
    if s != [] {
      assert forall i :: 0 <= i < |s[1..]| ==> s[1..][i] == s[i + 1];
      NoneWithRelevance(s[1..], k);
    }
  }

  /** Inserting `x` puts it after every row of its own relevance. */
  lemma {:induction false} InsertFilter(x: SearchResult, s: seq<SearchResult>, k: nat)
    requires NonIncreasing(s)
    ensures WithRelevance(InsertByRelevance(x, s), k)
         == WithRelevance(s, k) + (if x.relevance == k then [x] else [])
  {
    if s == [] {
    } else if s[0].relevance >= x.relevance {
      InsertFilter(x, s[1..], k);
      var h := if s[0].relevance == k then [s[0]] else [];
      assert WithRelevance(InsertByRelevance(x, s), k)
          == h + WithRelevance(InsertByRelevance(x, s[1..]), k);
    } else if x.relevance == k {
      forall i | 0 <= i < |s| ensures s[i].relevance != k {
        HeadBound(s, s[i]);
      }
      NoneWithRelevance(s, k);
    }
  }

  /** The ranking is sorted by relevance, highest first. */
  lemma {:induction false} RankSorted(s: seq<SearchResult>)
    ensures NonIncreasing(RankByRelevance(s))
  {
    if s != [] {
      RankSorted(s[..|s| - 1]);
      InsertSorted(s[|s| - 1], RankByRelevance(s[..|s| - 1]));
    }
  }

  /** The ranking holds exactly the given rows: a permutation of them. */
  lemma {:induction false} RankPermutation(s: seq<SearchResult>)
    ensures multiset(RankByRelevance(s)) == multiset(s)
  {
    if s != [] {
      var front := s[..|s| - 1];
      RankPermutation(front);
      RankSorted(front);
      InsertSorted(s[|s| - 1], RankByRelevance(front));
      assert s == front + [s[|s| - 1]];
    }
  }

  /** The ranking is stable: rows of equal relevance stay in their given order. */
  lemma {:induction false} RankStable(s: seq<SearchResult>, k: nat)
    ensures WithRelevance(RankByRelevance(s), k) == WithRelevance(s, k)
  {
    if s != [] {
      var front, last := s[..|s| - 1], s[|s| - 1];
      RankStable(front, k);
      RankSorted(front);
      InsertFilter(last, RankByRelevance(front), k);
      assert s == front + [last];
      WithRelevanceAppend(front, [last], k);
    }
  }

  /** Two sorted arrangements that order every relevance class the same way
      are the same arrangement. */
  lemma {:induction false} SortedStableUnique(a: seq<SearchResult>, b: seq<SearchResult>)
    requires NonIncreasing(a) && NonIncreasing(b)
    requires forall k: nat :: WithRelevance(a, k) == WithRelevance(b, k)
    ensures a == b
    decreases |a|
  {
    assert a != [] ==> b != [] by {
      if a != [] {
        WithRelevanceMembers(a, a[0].relevance, a[0]);
        WithRelevanceMembers(b, a[0].relevance, a[0]);
      }
    }
    assert b != [] ==> a != [] by {
      if b != [] {
        WithRelevanceMembers(b, b[0].relevance, b[0]);
        WithRelevanceMembers(a, b[0].relevance, b[0]);
      }
    }
    if a != [] {
      WithRelevanceMembers(a, a[0].relevance, a[0]);
      WithRelevanceMembers(b, a[0].relevance, a[0]);
      WithRelevanceMembers(b, b[0].relevance, b[0]);
      WithRelevanceMembers(a, b[0].relevance, b[0]);
      HeadBound(b, a[0]);
      HeadBound(a, b[0]);
      var top := a[0].relevance;
      assert WithRelevance(a, top) == [a[0]] + WithRelevance(a[1..], top);
      assert WithRelevance(b, top) == [b[0]] + WithRelevance(b[1..], top);
      assert b[0].relevance == top;
      assert WithRelevance(a, top)[0] == a[0];
      assert WithRelevance(b, top)[0] == b[0];
      forall k: nat ensures WithRelevance(a[1..], k) == WithRelevance(b[1..], k) {
        var h := if a[0].relevance == k then [a[0]] else [];
        assert WithRelevance(a, k) == h + WithRelevance(a[1..], k);
        assert WithRelevance(b, k) == h + WithRelevance(b[1..], k);
        assert (h + WithRelevance(a[1..], k))[|h|..] == WithRelevance(a[1..], k);
        assert (h + WithRelevance(b[1..], k))[|h|..] == WithRelevance(b[1..], k);
      }
      SortedStableUnique(a[1..], b[1..]);
      assert a == [a[0]] + a[1..];
      assert b == [b[0]] + b[1..];
    }
  }

  /** Any arrangement of the rows that is sorted by relevance, highest first,
      and keeps ties in their given order is the ranking. */
  lemma RankUnique(s: seq<SearchResult>, t: seq<SearchResult>)
    requires NonIncreasing(t)
    requires forall k: nat :: WithRelevance(t, k) == WithRelevance(s, k)
    ensures t == RankByRelevance(s)
  {
    RankSorted(s);
    forall k: nat ensures WithRelevance(t, k) == WithRelevance(RankByRelevance(s), k) {
      RankStable(s, k);
    }
    SortedStableUnique(t, RankByRelevance(s));
  }
}
