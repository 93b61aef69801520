/** The ranking and score-fusion core of the similarity search: an index ordering by descending
    score (`np.argsort(scores)[::-1]`), its top-k prefix, and the element-wise running sum of
    per-query score rows (`combined_similarity_scores += similarities`). */
module Ranking {

  /** No index is listed twice. */
  predicate Distinct(xs: seq<nat>) {
    forall i, j :: 0 <= i < j < |xs| ==> xs[i] != xs[j]
  }

  /** Every listed index addresses an element of a sequence of length `n`. */
  predicate InRange(xs: seq<nat>, n: nat) {
    forall i :: 0 <= i < |xs| ==> xs[i] < n
  }

  /** The scores of the listed indices never increase along the list. */
  predicate Descending(s: seq<real>, xs: seq<nat>)
    requires InRange(xs, |s|)
  {
    forall i, j :: 0 <= i < j < |xs| ==> s[xs[i]] >= s[xs[j]]
  }

  /** Every listed index scores at least as high as every index left out. */
  predicate Dominates(s: seq<real>, xs: seq<nat>)
    requires InRange(xs, |s|)
  {
    forall i, b :: 0 <= i < |xs| && 0 <= b < |s| && b !in xs ==> s[xs[i]] >= s[b]
  }

  /** `xs` is a valid answer to "the `k` best-scoring indices of `s`, best first". */
  predicate IsTopK(s: seq<real>, k: nat, xs: seq<nat>) {
    && |xs| == Min(k, |s|)
    && InRange(xs, |s|)
    && Distinct(xs)
    && Descending(s, xs)
    && Dominates(s, xs)
  }

  function Min(a: nat, b: nat): nat {
    if a <= b then a else b
  }

  /** Inserts index `x` into a list already ordered by descending score, in front of the
      first entry it is not below. */
  function Insert(s: seq<real>, x: nat, l: seq<nat>): (r: seq<nat>)
    ensures |r| == |l| + 1
    decreases |l|
  {
    if |l| == 0 then [x]
    else if x < |s| && l[0] < |s| && s[x] >= s[l[0]] then [x] + l
    else [l[0]] + Insert(s, x, l[1..])
  }

  /** Insertion adds exactly one occurrence of `x` and keeps everything else. */
  lemma {:induction false} InsertMembers(s: seq<real>, x: nat, l: seq<nat>)
    ensures multiset(Insert(s, x, l)) == multiset(l) + multiset{x}
    ensures forall y :: y in Insert(s, x, l) <==> y == x || y in l
    decreases |l|
  {
    if |l| > 0 {
      InsertMembers(s, x, l[1..]);
      assert l == [l[0]] + l[1..];
    }
    var r := Insert(s, x, l);
    forall y
      ensures y in r <==> y == x || y in l
    {
      assert y in r <==> y in multiset(r);
      assert y in l <==> y in multiset(l);
    }
  }

  /** Insertion into a descending list gives a descending list. */
  lemma {:induction false} InsertDescending(s: seq<real>, x: nat, l: seq<nat>)
    requires x < |s| && InRange(l, |s|) && Descending(s, l)
    ensures InRange(Insert(s, x, l), |s|) && Descending(s, Insert(s, x, l))
    decreases |l|
  {
    var r := Insert(s, x, l);
    InsertMembers(s, x, l);
    assert InRange(r, |s|) by {
      forall i | 0 <= i < |r|
        ensures r[i] < |s|
      {
        assert r[i] in r;
      }
    }
    if |l| == 0 {
    } else if s[x] >= s[l[0]] {
      forall i, j | 0 <= i < j < |r|
        ensures s[r[i]] >= s[r[j]]
      {
        if i == 0 && j > 1 {
          assert s[l[0]] >= s[l[j - 1]];
        }
      }
    } else {
      var t := l[1..];
      InsertDescending(s, x, t);
      InsertMembers(s, x, t);
      var rest := Insert(s, x, t);
      assert r == [l[0]] + rest;
      forall j | 0 <= j < |rest|
        ensures s[l[0]] >= s[rest[j]]
      {
        if rest[j] != x {
          assert rest[j] in t;
          var k :| 0 <= k < |t| && t[k] == rest[j];
          assert l[k + 1] == rest[j];
        }
      }
      forall i, j | 0 <= i < j < |r|
        ensures s[r[i]] >= s[r[j]]
      {
        if i > 0 {
          assert r[i] == rest[i - 1] && r[j] == rest[j - 1];
        }
      }
    }
  }

  /** Inserting a new index into a list without repeats gives a list without repeats. */
  lemma {:induction false} InsertDistinct(s: seq<real>, x: nat, l: seq<nat>)
    requires Distinct(l) && x !in l
    ensures Distinct(Insert(s, x, l))
    decreases |l|
  {
    if |l| > 0 && !(x < |s| && l[0] < |s| && s[x] >= s[l[0]]) {
      var t := l[1..];
      assert l == [l[0]] + t;
      InsertDistinct(s, x, t);
      InsertMembers(s, x, t);
      var rest := Insert(s, x, t);
      var r := [l[0]] + rest;
      assert l[0] !in rest;
      forall i, j | 0 <= i < j < |r|
        ensures r[i] != r[j]
      {
        if i > 0 {
          assert r[i] == rest[i - 1] && r[j] == rest[j - 1];
        } else {
          assert r[j] in rest;
        }
      }
    }
  }

  /** The indices `0 .. n-1` ordered by descending score. */
  function SortedIndices(s: seq<real>, n: nat): (r: seq<nat>)
    requires n <= |s|
    ensures |r| == n
    ensures InRange(r, |s|) && Descending(s, r) && Distinct(r)
    ensures forall y: nat :: y in r <==> y < n
  {
    if n == 0 then []
    else
      var prev := SortedIndices(s, n - 1);
      InsertMembers(s, n - 1, prev);
      InsertDescending(s, n - 1, prev);
      InsertDistinct(s, n - 1, prev);
      Insert(s, n - 1, prev)
  }

  /** The `k` best-scoring indices of `s`, best first (`np.argsort(s)[::-1][:k]`). */
  function TopK(s: seq<real>, k: nat): (r: seq<nat>)
    ensures |r| == Min(k, |s|)
    ensures InRange(r, |s|) && Distinct(r) && Descending(s, r)
  {
    SortedIndices(s, |s|)[..Min(k, |s|)]
  }

  /** `TopK` answers the top-k question: besides length, range, distinctness and order,
      nothing it leaves out scores higher than anything it keeps. */
  lemma TopKIsTopK(s: seq<real>, k: nat)
    ensures IsTopK(s, k, TopK(s, k))
  {
    var all := SortedIndices(s, |s|);
    var r := TopK(s, k);
    forall i, b | 0 <= i < |r| && 0 <= b < |s| && b !in r
      ensures s[r[i]] >= s[b]
    {
      assert b in all;
      var p :| 0 <= p < |all| && all[p] == b;
      assert r[i] == all[i];
    }
  }

  /** A table of scores with one row per query and `n` columns, one per library entry. */
  predicate IsMatrix(S: seq<seq<real>>, n: nat) {
    forall q :: 0 <= q < |S| ==> |S[q]| == n
  }

  /** The scores of library entry `e` across all queries, in query order. */
  function Column(S: seq<seq<real>>, e: nat): (c: seq<real>)
    requires forall q :: 0 <= q < |S| ==> e < |S[q]|
    ensures |c| == |S|
    ensures forall q :: 0 <= q < |S| ==> c[q] == S[q][e]
  {
    seq(|S|, q requires 0 <= q < |S| => S[q][e])
  }

  /** The arithmetic sum of a sequence of reals. */
  function Sum(xs: seq<real>): real {
    if |xs| == 0 then 0.0 else xs[0] + Sum(xs[1..])
  }

  function Zeros(n: nat): (z: seq<real>)
    ensures |z| == n && forall e :: 0 <= e < n ==> z[e] == 0.0
  {
    seq(n, e => 0.0)
  }

  /** One step of `combined_similarity_scores += similarities`. */
  function AddRow(acc: seq<real>, row: seq<real>): (r: seq<real>)
    requires |row| == |acc|
  {
    seq(|acc|, e requires 0 <= e < |acc| => acc[e] + row[e])
  }

  /** The running element-wise sum after adding every row of `S` to `acc`, first row first. */
  function Accumulate(acc: seq<real>, S: seq<seq<real>>): (r: seq<real>)
    requires IsMatrix(S, |acc|)
    ensures |r| == |acc|
    decreases |S|
  {
    if |S| == 0 then acc else Accumulate(AddRow(acc, S[0]), S[1..])
  }

  /** Entry `e` of the running sum is its starting value plus the sum of column `e`. */
  lemma {:induction false} AccumulateIsColumnSum(acc: seq<real>, S: seq<seq<real>>, e: nat)
    requires IsMatrix(S, |acc|) && e < |acc|
    ensures Accumulate(acc, S)[e] == acc[e] + Sum(Column(S, e))
    decreases |S|
  {
    if |S| > 0 {
      AccumulateIsColumnSum(AddRow(acc, S[0]), S[1..], e);
      assert Column(S[1..], e) == Column(S, e)[1..];
    }
  }

  /** The per-entry mean score over all queries (`combined / len(query_features)`). */
  function Averages(S: seq<seq<real>>, n: nat): (avg: seq<real>)
    requires |S| >= 1 && IsMatrix(S, n)
    ensures |avg| == n
  {
    var combined := Accumulate(Zeros(n), S);
    seq(n, e requires 0 <= e < n => combined[e] / (|S| as real))
  }

  /** Each average is the sum of that entry's column divided by the number of queries. */
  lemma AveragesAreColumnMeans(S: seq<seq<real>>, n: nat)
    requires |S| >= 1 && IsMatrix(S, n)
    ensures forall e :: 0 <= e < n ==> Averages(S, n)[e] == Sum(Column(S, e)) / (|S| as real)
  {
    forall e | 0 <= e < n
      ensures Averages(S, n)[e] == Sum(Column(S, e)) / (|S| as real)
    {
      AccumulateIsColumnSum(Zeros(n), S, e);
    }
  }
}
