/**
 Top-N selection in `get_top_chunks` (backend.py, lines 47-49):
 `np.argsort(similarities)[-top_n:][::-1]`, each index then mapped to the
 pair `(texts[i], similarities[i])`. The similarity scores are opaque
 ordered values. `np.argsort` is not stable by default, so the selection is
 stated for every ascending order of the indices, not for one tie-break.
 */
module Ranking {
  import opened Seqs

  /** A similarity score; the source's floats are modelled as reals. */
  type Score = real

  /** No value occurs twice in `s`. */
  predicate Distinct(s: seq<int>) {
    forall a, b :: 0 <= a < b < |s| ==> s[a] != s[b]
  }

  /** `order` lists every index below `n` exactly once. */
  predicate IsPermutation(order: seq<int>, n: nat) {
    && |order| == n
    && (forall k :: 0 <= k < |order| ==> 0 <= order[k] < n)
    && (forall i :: 0 <= i < n ==> i in order)
    && Distinct(order)
  }

  /** Following `order` visits the scores from the lowest to the highest. */
  predicate AscendingBy(scores: seq<Score>, order: seq<int>)
    requires forall k :: 0 <= k < |order| ==> 0 <= order[k] < |scores|
  {
    forall a, b :: 0 <= a < b < |order| ==> scores[order[a]] <= scores[order[b]]
  }

  /** What `np.argsort(scores)` may return: a permutation of the indices
      that sorts the scores ascending. Among equal scores any order is allowed. */
  predicate IsArgsort(scores: seq<Score>, order: seq<int>) {
    IsPermutation(order, |scores|) && AscendingBy(scores, order)
  }

  /** Python's `s[start:]` for any integer `start`: a negative start counts
      from the end, and a start outside the sequence is clamped to it. */
  function PySliceFrom<T>(s: seq<T>, start: int): (r: seq<T>)
    ensures |r| <= |s| && r == s[|s| - |r|..]
    ensures start < 0 ==> |r| == Min(-start, |s|)
    ensures start >= 0 ==> |r| == if start <= |s| then |s| - start else 0
  {
    var k := if start < 0 then (if |s| + start < 0 then 0 else |s| + start)
             else (if start > |s| then |s| else start);
    s[k..]
  }

  /** `order[-top_n:][::-1]`: the positions chosen from `order`, best first. */
  function TopIndices(order: seq<int>, topN: int): (r: seq<int>)
    ensures topN >= 1 ==> |r| == Min(topN, |order|)
    ensures topN == 0 ==> |r| == |order|
    ensures topN < 0 ==> |r| == if -topN <= |order| then |order| + topN else 0
    ensures |r| <= |order|
    ensures forall k :: 0 <= k < |r| ==> r[k] == order[|order| - 1 - k]
  {
    var tail := PySliceFrom(order, -topN);
    var r := Reverse(tail);
    assert forall k :: 0 <= k < |r| ==> r[k] == tail[|tail| - 1 - k];
    r
  }

  /** The chosen indices are distinct indices of the scores. */
  lemma TopIndicesAreDistinctIndices(scores: seq<Score>, order: seq<int>, topN: int)
    requires IsArgsort(scores, order)
    ensures Distinct(TopIndices(order, topN))
    ensures forall k :: 0 <= k < |TopIndices(order, topN)| ==> 0 <= TopIndices(order, topN)[k] < |scores|
  {
    BackFromEndKeeps(order, TopIndices(order, topN), |scores|);
  }

  /** Reading a sequence backwards from its end keeps its elements distinct and in range. */
  lemma BackFromEndKeeps(order: seq<int>, r: seq<int>, bound: int)
    requires |r| <= |order|
    requires forall k :: 0 <= k < |r| ==> r[k] == order[|order| - 1 - k]
    requires Distinct(order)
    requires forall k :: 0 <= k < |order| ==> 0 <= order[k] < bound
    ensures Distinct(r)
    ensures forall k :: 0 <= k < |r| ==> 0 <= r[k] < bound
  {
    var n := |order|;
    forall a, b | 0 <= a < b < |r| ensures r[a] != r[b] {
      assert r[a] == order[n - 1 - a] && r[b] == order[n - 1 - b];
    }
  }

  /** The returned list: `[(texts[i], scores[i]) for i in top_indices]`.
      It has `min(top_n, N)` pairs (all `N` for `top_n == 0`), its scores
      never increase, and no score left out beats a score returned. */
  function SelectTop(scores: seq<Score>, texts: seq<string>, order: seq<int>, topN: int)
    : (r: seq<(string, Score)>)
    requires IsArgsort(scores, order)
    requires |scores| <= |texts|
    ensures topN >= 1 ==> |r| == Min(topN, |scores|)
    ensures topN == 0 ==> |r| == |scores|
    ensures |r| == |TopIndices(order, topN)|
    ensures forall k :: 0 <= k < |r| ==>
      var i := TopIndices(order, topN)[k]; 0 <= i < |scores| && r[k] == (texts[i], scores[i])
    ensures forall a, b :: 0 <= a < b < |r| ==> r[a].1 >= r[b].1
    ensures forall i, k :: 0 <= i < |scores| && i !in TopIndices(order, topN) && 0 <= k < |r| ==>
      scores[i] <= r[k].1
  {
    var top := TopIndices(order, topN);
    TopIndicesAreDistinctIndices(scores, order, topN);
    var r := seq(|top|, k requires 0 <= k < |top| => (texts[top[k]], scores[top[k]]));
    LeftOutScoresNoHigher(scores, order, topN);
    r
  }

  /** Every index outside the selection scores no higher than any chosen one. */
  lemma LeftOutScoresNoHigher(scores: seq<Score>, order: seq<int>, topN: int)
    requires IsArgsort(scores, order)
    ensures forall i, k :: 0 <= i < |scores| && i !in TopIndices(order, topN) && 0 <= k < |TopIndices(order, topN)| ==>
      scores[i] <= scores[TopIndices(order, topN)[k]]
  {
    BackFromEndIsTop(scores, order, TopIndices(order, topN));
  }

  /** An index missing from a run read backwards from the end of an ascending
      order sits in `order` before every position of the run, so its score is
      no higher than any score in the run. */
  lemma BackFromEndIsTop(scores: seq<Score>, order: seq<int>, r: seq<int>)
    requires IsArgsort(scores, order)
    requires |r| <= |order|
    requires forall k :: 0 <= k < |r| ==> r[k] == order[|order| - 1 - k]
    ensures forall k :: 0 <= k < |r| ==> 0 <= r[k] < |scores|
    ensures forall i, k :: 0 <= i < |scores| && i !in r && 0 <= k < |r| ==> scores[i] <= scores[r[k]]
  {
    var n := |order|;
    forall i, k | 0 <= i < |scores| && i !in r && 0 <= k < |r|
      ensures scores[i] <= scores[r[k]]
    {
      assert i in order;
      var p :| 0 <= p < n && order[p] == i;
      forall q | n - |r| <= q < n ensures order[q] in r {
        assert r[n - 1 - q] == order[q];
      }
      assert p < n - |r|;
      assert r[k] == order[n - 1 - k];
    }
  }

  /** Asking for at least as many results as there are scores returns every index. */
  lemma LargeTopNReturnsAll(scores: seq<Score>, order: seq<int>, topN: int)
    requires IsArgsort(scores, order)
    requires topN >= |scores|
    ensures forall i :: 0 <= i < |scores| ==> i in TopIndices(order, topN)
  {
    BackFromEndCovers(order, TopIndices(order, topN));
  }

  /** Reading all of a sequence backwards from its end meets every element. */
  lemma BackFromEndCovers(order: seq<int>, r: seq<int>)
    requires |r| == |order|
    requires forall k :: 0 <= k < |r| ==> r[k] == order[|order| - 1 - k]
    ensures forall x :: x in order ==> x in r
  {
    var n := |order|;
    forall x | x in order ensures x in r {
      var p :| 0 <= p < n && order[p] == x;
      assert r[n - 1 - p] == x;
    }
  }

  /** `i` put into the list `sorted` just before the first index whose
      score is at least as high as its own. */
  function InsertByScore(scores: seq<Score>, i: int, sorted: seq<int>): (r: seq<int>)
    requires 0 <= i < |scores|
    requires forall k :: 0 <= k < |sorted| ==> 0 <= sorted[k] < |scores|
    ensures |r| == |sorted| + 1
    ensures multiset(r) == multiset(sorted) + multiset{i}
  {
    if |sorted| == 0 || scores[i] <= scores[sorted[0]] then [i] + sorted
    else
      assert sorted == [sorted[0]] + sorted[1..];
      [sorted[0]] + InsertByScore(scores, i, sorted[1..])
  }

  /** Inserting adds `i` and keeps every other element. */
  lemma InsertMembers(scores: seq<Score>, i: int, sorted: seq<int>)
    requires 0 <= i < |scores|
    requires forall k :: 0 <= k < |sorted| ==> 0 <= sorted[k] < |scores|
    ensures forall x :: x in InsertByScore(scores, i, sorted) <==> x == i || x in sorted
  {
    var r := InsertByScore(scores, i, sorted);
    forall x ensures x in r <==> x == i || x in sorted {
      assert x in r <==> x in multiset(r);
      assert x in sorted <==> x in multiset(sorted);
    }
  }

  /** Inserting into an ascending list gives an ascending list. */
  lemma {:induction false} InsertAscending(scores: seq<Score>, i: int, sorted: seq<int>)
    requires 0 <= i < |scores|
    requires forall k :: 0 <= k < |sorted| ==> 0 <= sorted[k] < |scores|
    requires AscendingBy(scores, sorted)
    ensures forall k :: 0 <= k < |InsertByScore(scores, i, sorted)| ==> 0 <= InsertByScore(scores, i, sorted)[k] < |scores|
    ensures AscendingBy(scores, InsertByScore(scores, i, sorted))
  {
    var r := InsertByScore(scores, i, sorted);
    InsertMembers(scores, i, sorted);
    forall k | 0 <= k < |r| ensures 0 <= r[k] < |scores| {
      assert r[k] in r;
    }
    if |sorted| == 0 || scores[i] <= scores[sorted[0]] {
      assert forall k :: 1 <= k < |r| ==> r[k] == sorted[k - 1];
    } else {
      var tail := sorted[1..];
      var rest := InsertByScore(scores, i, tail);
      InsertAscending(scores, i, tail);
      InsertMembers(scores, i, tail);
      assert forall k :: 1 <= k < |r| ==> r[k] == rest[k - 1];
      forall k | 0 <= k < |rest| ensures scores[sorted[0]] <= scores[rest[k]] {
        assert rest[k] in rest;
        if rest[k] != i {
          var j :| 0 <= j < |tail| && tail[j] == rest[k];
          assert sorted[j + 1] == rest[k];
        }
      }
    }
  }

  /** Inserting a new index into a list without repeats keeps it without repeats. */
  lemma {:induction false} InsertDistinct(scores: seq<Score>, i: int, sorted: seq<int>)
    requires 0 <= i < |scores|
    requires forall k :: 0 <= k < |sorted| ==> 0 <= sorted[k] < |scores|
    requires Distinct(sorted) && i !in sorted
    ensures Distinct(InsertByScore(scores, i, sorted))
  {
    var r := InsertByScore(scores, i, sorted);
    if |sorted| == 0 || scores[i] <= scores[sorted[0]] {
      assert forall k :: 1 <= k < |r| ==> r[k] == sorted[k - 1];
    } else {
      var tail := sorted[1..];
      var rest := InsertByScore(scores, i, tail);
      assert i !in tail;
      InsertDistinct(scores, i, tail);
      InsertMembers(scores, i, tail);
      assert forall k :: 1 <= k < |r| ==> r[k] == rest[k - 1];
      forall k | 0 <= k < |rest| ensures rest[k] != sorted[0] {
        assert rest[k] in rest;
        if rest[k] != i {
          var j :| 0 <= j < |tail| && tail[j] == rest[k];
          assert sorted[j + 1] == rest[k];
        }
      }
    }
  }

  /** Inserting the next index into an ascending permutation of the indices
      below it gives an ascending permutation of one more index. */
  lemma InsertExtends(scores: seq<Score>, prev: seq<int>, m: nat)
    requires m < |scores|
    requires IsPermutation(prev, m) && AscendingBy(scores, prev)
    ensures IsPermutation(InsertByScore(scores, m, prev), m + 1)
    ensures AscendingBy(scores, InsertByScore(scores, m, prev))
  {
    var r := InsertByScore(scores, m, prev);
    InsertMembers(scores, m, prev);
    InsertAscending(scores, m, prev);
    InsertDistinct(scores, m, prev);
    forall k | 0 <= k < |r| ensures r[k] < m + 1 {
      assert r[k] in r;
    }
    forall i | 0 <= i < m + 1 ensures i in r {
      if i < m {
        assert i in prev;
      }
    }
  }

  /** `order` is an ascending permutation of the first `n` indices of `scores`. */
  predicate SortsFirst(scores: seq<Score>, order: seq<int>, n: nat) {
    n <= |scores| && IsPermutation(order, n) && AscendingBy(scores, order)
  }

  /** One insertion step of the sort: the next index joins the order. */
  function InsertNext(scores: seq<Score>, prev: seq<int>, m: nat): (r: seq<int>)
    requires m < |scores| && SortsFirst(scores, prev, m)
    ensures SortsFirst(scores, r, m + 1)
  {
    InsertExtends(scores, prev, m);
    InsertByScore(scores, m, prev)
  }

  /** The first `n` indices, inserted one after the other: an ascending
      permutation of them. */
  function ArgSortPrefix(scores: seq<Score>, n: nat): (r: seq<int>)
    requires n <= |scores|
    ensures SortsFirst(scores, r, n)
  {
    if n == 0 then [] else InsertNext(scores, ArgSortPrefix(scores, n - 1), n - 1)
  }

  /** One admissible result of `np.argsort(scores)`. */
  function ArgSort(scores: seq<Score>): (r: seq<int>)
    ensures IsArgsort(scores, r)
  {
    ArgSortPrefix(scores, |scores|)
  }

  /** The scores read along `order`. */
  function ScoresAlong(scores: seq<Score>, order: seq<int>): seq<Score>
    requires forall k :: 0 <= k < |order| ==> 0 <= order[k] < |scores|
  {
    seq(|order|, k requires 0 <= k < |order| => scores[order[k]])
  }

  /** Each value is at least the one before it. */
  predicate Sorted(a: seq<Score>) {
    forall i :: 0 < i < |a| ==> a[i - 1] <= a[i]
  }

  /** Scores read along an ascending order are sorted. */
  lemma AlongIsSorted(scores: seq<Score>, order: seq<int>)
    requires IsArgsort(scores, order)
    ensures Sorted(ScoresAlong(scores, order))
  {
    var along := ScoresAlong(scores, order);
    forall i | 0 < i < |along| ensures along[i - 1] <= along[i] {
      assert scores[order[i - 1]] <= scores[order[i]];
    }
  }

  /** Two ascending sequences holding the same values are equal. */
  lemma {:induction false} SortedUnique(a: seq<Score>, b: seq<Score>)
    requires Sorted(a) && Sorted(b)
    requires multiset(a) == multiset(b)
    ensures a == b
    decreases |a|
  {
    if |a| == 0 {
      assert |b| == |multiset(b)| == |multiset(a)| == 0;
    } else {
      SortedStep(a, b);
      SortedUnique(a[1..], b[1..]);
      assert a == [a[0]] + a[1..];
      assert b == [b[0]] + b[1..];
    }
  }

  /** Two non-empty ascending sequences with the same values start with the
      same value, and what follows it again has the same values. */
  lemma SortedStep(a: seq<Score>, b: seq<Score>)
    requires Sorted(a) && Sorted(b) && |a| > 0
    requires multiset(a) == multiset(b)
    ensures |b| > 0 && a[0] == b[0]
    ensures Sorted(a[1..]) && Sorted(b[1..])
    ensures multiset(a[1..]) == multiset(b[1..])
  {
    assert |b| == |multiset(b)| == |multiset(a)| == |a|;
    SortedFirstIsLeast(a, b[0]);
    SortedFirstIsLeast(b, a[0]);
    DropFirst(a);
    DropFirst(b);
  }

  /** The first element of an ascending sequence is its least value. */
  lemma SortedFirstIsLeast(a: seq<Score>, x: Score)
    requires Sorted(a) && x in multiset(a)
    ensures a[0] <= x
  {
    var j :| 0 <= j < |a| && a[j] == x;
    SortedFirstBelow(a, j);
  }

  /** In an ascending sequence the first element is at most the `j`-th. */
  lemma {:induction false} SortedFirstBelow(a: seq<Score>, j: nat)
    requires Sorted(a) && j < |a|
    ensures a[0] <= a[j]
  {
    if j > 0 {
      SortedFirstBelow(a, j - 1);
      assert a[j - 1] <= a[j];
    }
  }

  /** Dropping the first element of an ascending sequence keeps it ascending
      and removes one copy of that element's value. */
  lemma DropFirst(a: seq<Score>)
    requires Sorted(a) && |a| > 0
    ensures Sorted(a[1..])
    ensures multiset(a[1..]) == multiset(a) - multiset{a[0]}
  {
    assert a == [a[0]] + a[1..];
    forall i | 0 < i < |a| - 1 ensures a[1..][i - 1] <= a[1..][i] {
      assert a[i] <= a[i + 1];
    }
  }

  /** Dropping the position that holds the largest index from a permutation
      of the indices below `n` leaves a permutation of those below `n - 1`. */
  lemma DropLargest(order: seq<int>, n: nat, p: nat)
    requires IsPermutation(order, n)
    requires p < n && order[p] == n - 1
    ensures IsPermutation(order[..p] + order[p + 1..], n - 1)
  {
    var rest := order[..p] + order[p + 1..];
    assert forall k :: 0 <= k < |rest| ==> rest[k] == order[if k < p then k else k + 1];
    forall k | 0 <= k < |rest| ensures 0 <= rest[k] < n - 1 {
      var q := if k < p then k else k + 1;
      assert q != p && order[q] != order[p];
    }
    forall i | 0 <= i < n - 1 ensures i in rest {
      assert i in order;
      var q :| 0 <= q < n && order[q] == i;
      assert q != p;
      assert rest[if q < p then q else q - 1] == i;
    }
  }

  /** Reading the scores along a permutation of their indices reorders them
      without adding or losing any value. */
  lemma {:induction false} PermutationKeepsScores(scores: seq<Score>, order: seq<int>)
    requires IsPermutation(order, |scores|)
    ensures multiset(ScoresAlong(scores, order)) == multiset(scores)
    decreases |scores|
  {
    var n := |scores|;
    if n > 0 {
      var rest := DropLargestStep(scores, order);
      PermutationKeepsScores(scores[..n - 1], rest);
      assert scores == scores[..n - 1] + [scores[n - 1]];
    }
  }

  /** Taking the largest index out of a non-empty permutation leaves a
      permutation of the smaller indices, along which the scores read as
      before minus the last score. */
  lemma DropLargestStep(scores: seq<Score>, order: seq<int>) returns (rest: seq<int>)
    requires IsPermutation(order, |scores|) && |scores| > 0
    ensures IsPermutation(rest, |scores| - 1)
    ensures multiset(ScoresAlong(scores, order)) ==
      multiset(ScoresAlong(scores[..|scores| - 1], rest)) + multiset{scores[|scores| - 1]}
  {
    var n := |scores|;
    assert n - 1 in order;
    var p :| 0 <= p < n && order[p] == n - 1;
    rest := order[..p] + order[p + 1..];
    DropLargest(order, n, p);
    DropLargestScores(scores, order, rest, p);
    var along := ScoresAlong(scores, order);
    SpliceMultiset(along, p);
    assert along[p] == scores[n - 1];
  }

  /** Reading the scores along an order with one position dropped reads
      them along the full order with that position skipped. */
  lemma DropLargestScores(scores: seq<Score>, order: seq<int>, rest: seq<int>, p: nat)
    requires |scores| > 0 && p < |order|
    requires rest == order[..p] + order[p + 1..]
    requires forall k :: 0 <= k < |order| ==> 0 <= order[k] < |scores|
    requires forall k :: 0 <= k < |rest| ==> 0 <= rest[k] < |scores| - 1
    ensures ScoresAlong(scores[..|scores| - 1], rest) ==
      ScoresAlong(scores, order)[..p] + ScoresAlong(scores, order)[p + 1..]
  {
    var along := ScoresAlong(scores, order);
    var skipped := along[..p] + along[p + 1..];
    var restAlong := ScoresAlong(scores[..|scores| - 1], rest);
    forall k | 0 <= k < |rest| ensures restAlong[k] == skipped[k] {
      if k < p {
        assert rest[k] == order[k];
      } else {
        assert rest[k] == order[k + 1];
      }
    }
  }

  /** Taking out one position removes exactly its value. */
  lemma SpliceMultiset<T>(a: seq<T>, p: nat)
    requires p < |a|
    ensures multiset(a) == multiset(a[..p] + a[p + 1..]) + multiset{a[p]}
  {
    assert a == a[..p] + [a[p]] + a[p + 1..];
  }

  /** Every admissible argsort reads the scores in the same order of values:
      an unstable sort may swap equal scores but never changes the values. */
  lemma ArgsortScoresUnique(scores: seq<Score>, o1: seq<int>, o2: seq<int>)
    requires IsArgsort(scores, o1) && IsArgsort(scores, o2)
    ensures ScoresAlong(scores, o1) == ScoresAlong(scores, o2)
  {
    PermutationKeepsScores(scores, o1);
    PermutationKeepsScores(scores, o2);
    AlongIsSorted(scores, o1);
    AlongIsSorted(scores, o2);
    SortedUnique(ScoresAlong(scores, o1), ScoresAlong(scores, o2));
  }

  /** The `k`-th returned score is the `k`-th score from the top of the
      scores read along `order`. */
  lemma SelectTopScores(scores: seq<Score>, texts: seq<string>, order: seq<int>, topN: int)
    requires IsArgsort(scores, order)
    requires |scores| <= |texts|
    ensures forall k :: 0 <= k < |SelectTop(scores, texts, order, topN)| ==>
      SelectTop(scores, texts, order, topN)[k].1 == ScoresAlong(scores, order)[|scores| - 1 - k]
  {
    var r := SelectTop(scores, texts, order, topN);
    var top := TopIndices(order, topN);
    ReadBackScores(scores, order, top, ScoresAlong(scores, order));
    forall k | 0 <= k < |r| ensures r[k].1 == scores[top[k]] {
      var i := top[k];
      assert r[k] == (texts[i], scores[i]);
    }
  }

  /** A run read backwards from the end of `order` meets the scores read
      along `order` from the top down. */
  lemma ReadBackScores(scores: seq<Score>, order: seq<int>, top: seq<int>, along: seq<Score>)
    requires forall k :: 0 <= k < |order| ==> 0 <= order[k] < |scores|
    requires |top| <= |order|
    requires forall k :: 0 <= k < |top| ==> top[k] == order[|order| - 1 - k]
    requires along == ScoresAlong(scores, order)
    ensures forall k :: 0 <= k < |top| ==> scores[top[k]] == along[|order| - 1 - k]
  {
  }

  /** The scores `get_top_chunks` returns do not depend on how ties are
      broken; only which of several equally scored texts is returned can. */
  lemma TopScoresIgnoreTies(scores: seq<Score>, texts: seq<string>, o1: seq<int>, o2: seq<int>, topN: int)
    requires IsArgsort(scores, o1) && IsArgsort(scores, o2)
    requires |scores| <= |texts|
    ensures |SelectTop(scores, texts, o1, topN)| == |SelectTop(scores, texts, o2, topN)|
    ensures forall k :: 0 <= k < |SelectTop(scores, texts, o1, topN)| ==>
      SelectTop(scores, texts, o1, topN)[k].1 == SelectTop(scores, texts, o2, topN)[k].1
  {
    ArgsortScoresUnique(scores, o1, o2);
    SelectTopScores(scores, texts, o1, topN);
    SelectTopScores(scores, texts, o2, topN);
  }
}
