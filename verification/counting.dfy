/**
 pandas' `Series.value_counts()` followed by `.head(n)`: count the
 occurrences of each distinct label, rank the labels by count (highest
 first) and keep the first `n`. Missing values never reach this module:
 `value_counts` drops NaN, and the callers pass only present labels.
 */
module Counting {

  /** A counts table: each label with its number of occurrences. */
  type Table<T> = seq<(T, nat)>

  /** Position of the row labelled `x`, or `|t|` when there is none. */
  function Find<T(==)>(t: Table<T>, x: T): (k: nat)
    ensures k <= |t|
    ensures k < |t| ==> t[k].0 == x
    ensures forall j :: 0 <= j < k ==> t[j].0 != x
  {
    if |t| == 0 then 0
    else if t[0].0 == x then 0
    else
      var k := 1 + Find(t[1..], x);
      assert forall j :: 1 <= j < |t| ==> t[j] == t[1..][j - 1];
      k
  }

  predicate HasLabel<T(==)>(t: Table<T>, x: T) {
    Find(t, x) < |t|
  }

  /** Sum of the counts of a table. */
  function Total<T>(t: Table<T>): nat {
    if |t| == 0 then 0 else t[0].1 + Total(t[1..])
  }

  predicate DistinctLabels<T(==)>(t: Table<T>) {
    forall i, j :: 0 <= i < j < |t| ==> t[i].0 != t[j].0
  }

  /** Counts never increase along the table. */
  predicate NonIncreasing<T>(t: Table<T>) {
    forall i, j :: 0 <= i < j < |t| ==> t[i].1 >= t[j].1
  }

  /** Every row of `t` holds a label of `s` with its true number of
      occurrences in `s`, which is therefore at least 1. */
  predicate TrueCounts<T(==)>(t: Table<T>, s: seq<T>) {
    forall i :: 0 <= i < |t| ==> t[i].1 == multiset(s)[t[i].0] && t[i].1 >= 1
  }

  /** Every label of `s` has a row in `t`. */
  predicate Covers<T(==)>(t: Table<T>, s: seq<T>) {
    forall i :: 0 <= i < |s| ==> HasLabel(t, s[i])
  }

  lemma ElementWitness<T>(t: Table<T>, y: (T, nat)) returns (k: nat)
    requires y in multiset(t)
    ensures k < |t| && t[k] == y
  {
    assert y in t;
    k :| 0 <= k < |t| && t[k] == y;
  }

  /** A row whose label is new can be put in front of a table without
      repeating a label. */
  lemma ConsDistinct<T>(x: (T, nat), t: Table<T>)
    requires DistinctLabels(t)
    requires forall k :: 0 <= k < |t| ==> t[k].0 != x.0
    ensures DistinctLabels([x] + t)
  {
    var r := [x] + t;
    assert forall k :: 1 <= k < |r| ==> r[k] == t[k - 1];
  }

  // ---------------------------------------------------------------------------
  // Counting in order of first occurrence
  // ---------------------------------------------------------------------------

  /** Counts one more occurrence of `x`: its row goes up by one, or a new
      row `(x, 1)` is appended after the labels seen so far. */
  function Bump<T(==)>(t: Table<T>, x: T): (r: Table<T>)
    ensures |r| == if HasLabel(t, x) then |t| else |t| + 1
    ensures forall i :: 0 <= i < |t| ==>
              r[i].0 == t[i].0 && r[i].1 == (if i == Find(t, x) then t[i].1 + 1 else t[i].1)
    ensures !HasLabel(t, x) ==> r[|t|] == (x, 1)
    ensures Total(r) == Total(t) + 1
  {
    if |t| == 0 then [(x, 1)]
    else if t[0].0 == x then
      var r := [(x, t[0].1 + 1)] + t[1..];
      assert r[1..] == t[1..];
      r
    else
      var rest := Bump(t[1..], x);
      var r := [t[0]] + rest;
      assert r[1..] == rest;
      assert forall i :: 1 <= i < |t| ==> t[i] == t[1..][i - 1] && r[i] == rest[i - 1];
      r
  }

  lemma BumpDistinct<T>(t: Table<T>, x: T)
    requires DistinctLabels(t)
    ensures DistinctLabels(Bump(t, x))
  {
    var r := Bump(t, x);
    assert forall i :: 0 <= i < |t| ==> r[i].0 == t[i].0;
  }

  lemma BumpCounts<T>(t: Table<T>, s: seq<T>, x: T)
    requires DistinctLabels(t) && TrueCounts(t, s) && Covers(t, s)
    ensures TrueCounts(Bump(t, x), s + [x])
  {
    var r := Bump(t, x);
    var k := Find(t, x);
    assert multiset(s + [x]) == multiset(s) + multiset{x};
    forall i | 0 <= i < |r|
      ensures r[i].1 == multiset(s + [x])[r[i].0] && r[i].1 >= 1
    {
      if i < |t| {
        assert t[i].0 == x <==> i == k;
      } else {
        assert forall j :: 0 <= j < |s| ==> s[j] != x;
        assert x !in s;
      }
    }
  }

  lemma BumpCovers<T>(t: Table<T>, s: seq<T>, x: T)
    requires Covers(t, s)
    ensures Covers(Bump(t, x), s + [x])
  {
    var r := Bump(t, x);
    var s' := s + [x];
    forall i | 0 <= i < |s'|
      ensures HasLabel(r, s'[i])
    {
      var y := s'[i];
      var k := Find(t, y);
      if k < |t| {
        assert r[k].0 == y;
      } else {
        assert y == x;
        assert r[|t|].0 == y;
      }
    }
  }

  /** The occurrence counts of `s`, labels in order of first occurrence. */
  function Tally<T(==)>(s: seq<T>): (t: Table<T>)
    ensures DistinctLabels(t)
    ensures TrueCounts(t, s)
    ensures Covers(t, s)
    ensures Total(t) == |s|
  {
    if |s| == 0 then []
    else
      var init, x := s[..|s| - 1], s[|s| - 1];
      assert s == init + [x];
      var prev := Tally(init);
      BumpDistinct(prev, x);
      BumpCounts(prev, init, x);
      BumpCovers(prev, init, x);
      Bump(prev, x)
  }

  // ---------------------------------------------------------------------------
  // Ranking by count
  // ---------------------------------------------------------------------------

  /** Puts `e` into a table ranked by count, in front of the rows whose
      count it equals. */
  function InsertByCount<T>(e: (T, nat), t: Table<T>): (r: Table<T>)
    requires NonIncreasing(t)
    ensures NonIncreasing(r)
    ensures |r| == |t| + 1
    ensures r[0] == e || (|t| > 0 && r[0] == t[0])
    ensures Total(r) == e.1 + Total(t)
  {
    if |t| == 0 || e.1 >= t[0].1 then [e] + t
    else
      var rest := InsertByCount(e, t[1..]);
      var r := [t[0]] + rest;
      assert r[1..] == rest;
      assert forall k :: 1 <= k < |r| ==> r[k] == rest[k - 1];
      r
  }

  /** Ranking only reorders: the insertion adds exactly one row. */
  lemma {:induction false} InsertByCountPermutes<T>(e: (T, nat), t: Table<T>)
    requires NonIncreasing(t)
    ensures multiset(InsertByCount(e, t)) == multiset(t) + multiset{e}
    decreases |t|
  {
    if |t| > 0 && e.1 < t[0].1 {
      InsertByCountPermutes(e, t[1..]);
      assert t == [t[0]] + t[1..];
    }
  }

  lemma {:induction false} InsertByCountDistinct<T>(e: (T, nat), t: Table<T>)
    requires NonIncreasing(t) && DistinctLabels(t)
    requires forall k :: 0 <= k < |t| ==> t[k].0 != e.0
    ensures DistinctLabels(InsertByCount(e, t))
    decreases |t|
  {
    if |t| == 0 || e.1 >= t[0].1 {
      ConsDistinct(e, t);
    } else {
      var rest := InsertByCount(e, t[1..]);
      assert forall k :: 1 <= k < |t| ==> t[1..][k - 1] == t[k];
      InsertByCountDistinct(e, t[1..]);
      InsertByCountPermutes(e, t[1..]);
      forall k | 0 <= k < |rest|
        ensures rest[k].0 != t[0].0
      {
        assert rest[k] in multiset(rest);
        if rest[k] != e {
          var j := ElementWitness(t[1..], rest[k]);
          assert t[j + 1] == rest[k];
        }
      }
      ConsDistinct(t[0], rest);
    }
  }

  /** The rows of `t` ranked by count, highest first. */
  function RankByCount<T>(t: Table<T>): (r: Table<T>)
    ensures NonIncreasing(r)
    ensures |r| == |t|
    ensures Total(r) == Total(t)
  {
    if |t| == 0 then []
    else InsertByCount(t[0], RankByCount(t[1..]))
  }

  /** Ranking is a permutation of the table. */
  lemma {:induction false} RankByCountPermutes<T>(t: Table<T>)
    ensures multiset(RankByCount(t)) == multiset(t)
    decreases |t|
  {
    if |t| > 0 {
      var rest := RankByCount(t[1..]);
      RankByCountPermutes(t[1..]);
      InsertByCountPermutes(t[0], rest);
      assert t == [t[0]] + t[1..];
    }
  }

  /** Ranking a table without repeated labels repeats none. */
  lemma {:induction false} RankByCountDistinct<T>(t: Table<T>)
    requires DistinctLabels(t)
    ensures DistinctLabels(RankByCount(t))
    decreases |t|
  {
    if |t| > 0 {
      var rest := RankByCount(t[1..]);
      assert forall k :: 1 <= k < |t| ==> t[1..][k - 1] == t[k];
      RankByCountDistinct(t[1..]);
      RankByCountPermutes(t[1..]);
      forall k | 0 <= k < |rest|
        ensures rest[k].0 != t[0].0
      {
        assert rest[k] in multiset(rest);
        var j := ElementWitness(t[1..], rest[k]);
        assert t[j + 1] == rest[k];
      }
      InsertByCountDistinct(t[0], rest);
    }
  }

  // ---------------------------------------------------------------------------
  // value_counts() and head(n)
  // ---------------------------------------------------------------------------

  lemma RankKeepsCounts<T>(t: Table<T>, s: seq<T>)
    requires TrueCounts(t, s)
    ensures TrueCounts(RankByCount(t), s)
  {
    var r := RankByCount(t);
    RankByCountPermutes(t);
    forall i | 0 <= i < |r|
      ensures r[i].1 == multiset(s)[r[i].0] && r[i].1 >= 1
    {
      assert r[i] in multiset(r);
      var k := ElementWitness(t, r[i]);
    }
  }

  lemma RankKeepsCover<T>(t: Table<T>, s: seq<T>)
    requires Covers(t, s)
    ensures Covers(RankByCount(t), s)
  {
    var r := RankByCount(t);
    RankByCountPermutes(t);
    forall i | 0 <= i < |s|
      ensures HasLabel(r, s[i])
    {
      var k := Find(t, s[i]);
      assert t[k] in multiset(t);
      var j := ElementWitness(r, t[k]);
      assert r[j].0 == s[i];
    }
  }

  /** `value_counts()`: every distinct label of `s` exactly once, with its
      true number of occurrences, ranked by count; the counts add up to the
      number of labels counted. */
  function ValueCounts<T(==)>(s: seq<T>): (r: Table<T>)
    ensures DistinctLabels(r)
    ensures NonIncreasing(r)
    ensures TrueCounts(r, s)
    ensures Covers(r, s)
    ensures Total(r) == |s|
  {
    var t := Tally(s);
    RankByCountDistinct(t);
    RankKeepsCounts(t, s);
    RankKeepsCover(t, s);
    RankByCount(t)
  }

  lemma PrefixKeeps<T>(all: Table<T>, s: seq<T>, m: nat)
    requires m <= |all|
    requires DistinctLabels(all) && NonIncreasing(all) && TrueCounts(all, s)
    ensures DistinctLabels(all[..m]) && NonIncreasing(all[..m]) && TrueCounts(all[..m], s)
  {
    assert forall j :: 0 <= j < m ==> all[..m][j] == all[j];
  }

  /** A label left out of a prefix of the ranking counts no more than the
      last row kept. */
  lemma PrefixExcludes<T>(all: Table<T>, s: seq<T>, n: nat)
    requires NonIncreasing(all) && TrueCounts(all, s) && Covers(all, s)
    ensures var r := all[..if n < |all| then n else |all|];
      forall i :: 0 <= i < |s| && !HasLabel(r, s[i]) ==>
        |r| == n && (n > 0 ==> multiset(s)[s[i]] <= r[n - 1].1)
  {
    var r := all[..if n < |all| then n else |all|];
    forall i | 0 <= i < |s| && !HasLabel(r, s[i])
      ensures |r| == n && (n > 0 ==> multiset(s)[s[i]] <= r[n - 1].1)
    {
      var k := Find(all, s[i]);
      assert forall j :: 0 <= j < |r| ==> r[j] == all[j];
      assert forall j :: 0 <= j < |r| ==> all[j].0 != s[i];
    }
  }

  /** `value_counts().head(n)`: at most `n` rows, distinct labels, counts
      non-increasing and true; any label left out was cut by the limit and
      counts no more than the smallest count kept. */
  function TopCounts<T(==)>(s: seq<T>, n: nat): (r: Table<T>)
    ensures |r| <= n
    ensures DistinctLabels(r)
    ensures NonIncreasing(r)
    ensures TrueCounts(r, s)
    ensures forall i :: 0 <= i < |s| && !HasLabel(r, s[i]) ==>
              |r| == n && (n > 0 ==> multiset(s)[s[i]] <= r[n - 1].1)
  {
    var all := ValueCounts(s);
    var r := all[..if n < |all| then n else |all|];
    PrefixKeeps(all, s, |r|);
    PrefixExcludes(all, s, n);
    r
  }

  /** The exclusion property of `TopCounts`, for a label given by value. */
  lemma TopCountsExcludes<T>(s: seq<T>, n: nat, x: T)
    ensures x in s && !HasLabel(TopCounts(s, n), x) ==>
      |TopCounts(s, n)| == n && (n > 0 ==> multiset(s)[x] <= TopCounts(s, n)[n - 1].1)
  {
    if x in s {
      var j :| 0 <= j < |s| && s[j] == x;
    }
  }
}
