/** Keyword extraction: the ten vocabulary terms with the largest centroid
    weights, largest first (`cluster_center.argsort()[-10:][::-1]`).
    Weights are modelled as integers; only their order matters. */
module Keywords {

  /** How many keywords each cluster gets. */
  const TopKeywords: nat := 10

  /** Index `i` precedes index `j` in the ascending argsort: a smaller weight,
      or an equal weight and a smaller index. */
  predicate Below(w: seq<int>, i: nat, j: nat)
    requires i < |w| && j < |w|
  {
    w[i] < w[j] || (w[i] == w[j] && i < j)
  }

  predicate InRange(w: seq<int>, s: seq<nat>)
  {
    forall k :: 0 <= k < |s| ==> s[k] < |w|
  }

  /** `s` lists indices in strictly ascending argsort order. */
  predicate SortedBelow(w: seq<int>, s: seq<nat>)
    requires InRange(w, s)
  {
    forall p, q :: 0 <= p < q < |s| ==> Below(w, s[p], s[q])
  }

  function InsertIndex(w: seq<int>, i: nat, s: seq<nat>): (r: seq<nat>)
    requires i < |w| && InRange(w, s)
    ensures |r| == |s| + 1 && InRange(w, r)
  {
    if s == [] then [i]
    else if Below(w, i, s[0]) then [i] + s
    else [s[0]] + InsertIndex(w, i, s[1..])
  }

  /** Insertion adds `i` and keeps every other index. */
  lemma {:induction false} InsertIndexPermutation(w: seq<int>, i: nat, s: seq<nat>)
    requires i < |w| && InRange(w, s)
    ensures multiset(InsertIndex(w, i, s)) == multiset(s) + multiset{i}
  {
    if s != [] && !Below(w, i, s[0]) {
      InsertIndexPermutation(w, i, s[1..]);
      assert InsertIndex(w, i, s) == [s[0]] + InsertIndex(w, i, s[1..]);
      assert s == [s[0]] + s[1..];
    }
  }

  /** Insertion sort of the indices `0 .. n-1` by weight. */
  function ArgSortUpTo(w: seq<int>, n: nat): (r: seq<nat>)
    requires n <= |w|
    ensures |r| == n && InRange(w, r)
    ensures forall k :: 0 <= k < |r| ==> r[k] < n
  {
    if n == 0 then []
    else
      var top: nat := n - 1;
      var s := ArgSortUpTo(w, top);
      InsertIndexBelow(w, top, s, n);
      InsertIndex(w, top, s)
  }

  /** One step of the insertion sort: index `n - 1` goes into the sorted
      indices below it. */
  lemma ArgSortUpToStep(w: seq<int>, n: nat)
    requires 0 < n <= |w|
    ensures ArgSortUpTo(w, n) == InsertIndex(w, n - 1, ArgSortUpTo(w, n - 1))
  {
  }

  /** Inserting an index below `n` into indices below `n` keeps them all
      below `n`. */
  lemma {:induction false} InsertIndexBelow(w: seq<int>, i: nat, s: seq<nat>, n: nat)
    requires i < |w| && InRange(w, s)
    requires i < n && forall k :: 0 <= k < |s| ==> s[k] < n
    ensures forall k :: 0 <= k < |InsertIndex(w, i, s)| ==> InsertIndex(w, i, s)[k] < n
  {
    if s != [] && !Below(w, i, s[0]) {
      InsertIndexBelow(w, i, s[1..], n);
      assert InsertIndex(w, i, s) == [s[0]] + InsertIndex(w, i, s[1..]);
    }
  }

  /** The insertion sort of `0 .. n-1` lists each of those indices once. */
  lemma {:induction false} ArgSortUpToPermutation(w: seq<int>, n: nat)
    requires n <= |w|
    ensures multiset(ArgSortUpTo(w, n)) == multiset(Range(n))
  {
    if n > 0 {
      var top: nat := n - 1;
      var s := ArgSortUpTo(w, top);
      ArgSortUpToPermutation(w, top);
      assert ArgSortUpTo(w, n) == InsertIndex(w, top, s);
      InsertIndexPermutation(w, top, s);
      RangeSnoc(top);
      assert multiset(Range(n)) == multiset(Range(top)) + multiset{top};
    }
  }

  lemma RangeSnoc(n: nat)
    ensures Range(n + 1) == Range(n) + [n]
  {
    assert forall k :: 0 <= k < n + 1 ==> Range(n + 1)[k] == (Range(n) + [n])[k];
  }

  /** `0, 1, ..., n-1`. */
  function Range(n: nat): (r: seq<nat>)
    ensures |r| == n && forall k :: 0 <= k < n ==> r[k] == k
  {
    seq(n, k requires 0 <= k < n => k)
  }

  /** numpy's `argsort()` of the weights, ascending; equal weights are kept
      in index order. */
  function ArgSort(w: seq<int>): seq<nat>
  {
    ArgSortUpTo(w, |w|)
  }

  function Reverse(s: seq<nat>): (r: seq<nat>)
    ensures |r| == |s| && forall k :: 0 <= k < |s| ==> r[k] == s[|s| - 1 - k]
  {
    seq(|s|, k requires 0 <= k < |s| => s[|s| - 1 - k])
  }

  /** `argsort()[-10:][::-1]`: the last ten of the ascending order (all of
      it when there are fewer), largest weight first. */
  function TopIndices(w: seq<int>): (r: seq<nat>)
    ensures InRange(w, r)
  {
    var s := ArgSort(w);
    var tail := if |s| <= TopKeywords then s else s[|s| - TopKeywords..];
    Reverse(tail)
  }

  /** `[terms[ind] for ind in ...]`. */
  function TopTerms(w: seq<int>, terms: seq<string>): seq<string>
    requires |w| == |terms|
  {
    var idx := TopIndices(w);
    seq(|idx|, k requires 0 <= k < |idx| => terms[idx[k]])
  }

  /** An index that precedes `i` and every index of `s` precedes every index
      of the insertion of `i` into `s`. */
  lemma {:induction false} InsertIndexBound(w: seq<int>, j: nat, i: nat, s: seq<nat>)
    requires j < |w| && i < |w| && InRange(w, s)
    requires Below(w, j, i)
    requires forall k :: 0 <= k < |s| ==> Below(w, j, s[k])
    ensures forall k :: 0 <= k < |InsertIndex(w, i, s)| ==> Below(w, j, InsertIndex(w, i, s)[k])
  {
    if s != [] && !Below(w, i, s[0]) {
      InsertIndexBound(w, j, i, s[1..]);
      var r := InsertIndex(w, i, s[1..]);
      assert InsertIndex(w, i, s) == [s[0]] + r;
    }
  }

  lemma {:induction false} InsertIndexSorted(w: seq<int>, i: nat, s: seq<nat>)
    requires i < |w| && InRange(w, s) && SortedBelow(w, s)
    requires i !in s
    ensures SortedBelow(w, InsertIndex(w, i, s))
  {
    if s != [] && !Below(w, i, s[0]) {
      var t := s[1..];
      assert SortedBelow(w, t);
      assert i !in t;
      InsertIndexSorted(w, i, t);
      assert s[0] != i;
      assert Below(w, s[0], i);
      assert forall k :: 0 <= k < |t| ==> Below(w, s[0], t[k]);
      InsertIndexBound(w, s[0], i, t);
      var r := InsertIndex(w, i, t);
      assert InsertIndex(w, i, s) == [s[0]] + r;
    }
  }

  lemma {:induction false} ArgSortUpToSorted(w: seq<int>, n: nat)
    requires n <= |w|
    ensures SortedBelow(w, ArgSortUpTo(w, n))
  {
    if n > 0 {
      var s := ArgSortUpTo(w, n - 1);
      assert n - 1 !in s by {
        assert forall k :: 0 <= k < |s| ==> s[k] < n - 1;
      }
      ArgSortUpToSorted(w, n - 1);
      InsertIndexSorted(w, n - 1, s);
      ArgSortUpToStep(w, n);
    } else {
      assert ArgSortUpTo(w, n) == [];
    }
  }

  /** The ascending argsort lists every index exactly once, ordered by
      weight. */
  lemma ArgSortIsSortedPermutation(w: seq<int>)
    ensures |ArgSort(w)| == |w| && InRange(w, ArgSort(w))
    ensures SortedBelow(w, ArgSort(w))
    ensures forall j :: 0 <= j < |w| ==> j in ArgSort(w)
  {
    var s := ArgSort(w);
    ArgSortUpToSorted(w, |w|);
    ArgSortUpToPermutation(w, |w|);
    forall j | 0 <= j < |w|
      ensures j in s
    {
      assert Range(|w|)[j] == j;
      assert j in multiset(Range(|w|));
    }
  }

  /** The selection is the last `min(10, |w|)` entries of the ascending
      argsort, read backwards. */
  lemma TopIndicesReversesTail(w: seq<int>)
    ensures |ArgSort(w)| == |w|
    ensures |TopIndices(w)| == if |w| < TopKeywords then |w| else TopKeywords
    ensures forall k :: 0 <= k < |TopIndices(w)| ==>
      TopIndices(w)[k] == ArgSort(w)[|ArgSort(w)| - 1 - k]
  {
    var s := ArgSort(w);
    var start := if |s| <= TopKeywords then 0 else |s| - TopKeywords;
    var tail := s[start..];
    assert TopIndices(w) == Reverse(tail);
    forall k | 0 <= k < |tail|
      ensures Reverse(tail)[k] == s[|s| - 1 - k]
    {
      assert tail[|tail| - 1 - k] == s[start + (|tail| - 1 - k)];
    }
  }

  /** The selected indices: `min(10, |w|)` distinct vocabulary positions,
      weights non-increasing, no unselected position heavier than any
      selected one; among equal weights the larger position comes first,
      and an unselected position of equal weight lies before the selected one. */
  lemma TopIndicesSpec(w: seq<int>)
    ensures |TopIndices(w)| == if |w| < TopKeywords then |w| else TopKeywords
    ensures InRange(w, TopIndices(w))
    ensures forall p, q :: 0 <= p < q < |TopIndices(w)| ==> TopIndices(w)[p] != TopIndices(w)[q]
    ensures forall p, q :: 0 <= p < q < |TopIndices(w)| ==>
      w[TopIndices(w)[p]] > w[TopIndices(w)[q]] ||
      (w[TopIndices(w)[p]] == w[TopIndices(w)[q]] && TopIndices(w)[p] > TopIndices(w)[q])
    ensures forall j, k :: 0 <= j < |w| && j !in TopIndices(w) && 0 <= k < |TopIndices(w)| ==>
      w[j] < w[TopIndices(w)[k]] || (w[j] == w[TopIndices(w)[k]] && j < TopIndices(w)[k])
  {
    var s := ArgSort(w);
    var r := TopIndices(w);
    TopIndicesReversesTail(w);
    ArgSortIsSortedPermutation(w);
    var start := |s| - |r|;
    forall p, q | 0 <= p < q < |r|
      ensures Below(w, r[q], r[p])
    {
      assert Below(w, s[|s| - 1 - q], s[|s| - 1 - p]);
    }
    forall q | start <= q < |s|
      ensures s[q] in r
    {
      assert r[|s| - 1 - q] == s[q];
    }
    forall j, k | 0 <= j < |w| && j !in r && 0 <= k < |r|
      ensures Below(w, j, r[k])
    {
      assert j in s;
      var p :| 0 <= p < |s| && s[p] == j;
      assert p < start;
      assert Below(w, s[p], s[|s| - 1 - k]);
    }
  }

  /** The keywords are `min(10, |terms|)` vocabulary terms, each at a
      selected position; with a vocabulary of distinct terms they are
      distinct. */
  lemma TopTermsSpec(w: seq<int>, terms: seq<string>)
    requires |w| == |terms|
    ensures |TopTerms(w, terms)| == if |terms| < TopKeywords then |terms| else TopKeywords
    ensures forall k :: 0 <= k < |TopTerms(w, terms)| ==>
      TopIndices(w)[k] < |terms| && TopTerms(w, terms)[k] == terms[TopIndices(w)[k]]
    ensures (forall a, b :: 0 <= a < b < |terms| ==> terms[a] != terms[b]) ==>
      forall p, q :: 0 <= p < q < |TopTerms(w, terms)| ==> TopTerms(w, terms)[p] != TopTerms(w, terms)[q]
  {
    TopIndicesSpec(w);
    var idx := TopIndices(w);
    if forall a, b :: 0 <= a < b < |terms| ==> terms[a] != terms[b] {
      forall p, q | 0 <= p < q < |idx|
        ensures terms[idx[p]] != terms[idx[q]]
      {
        assert idx[p] != idx[q];
        if idx[p] < idx[q] {
          assert terms[idx[p]] != terms[idx[q]];
        } else {
          assert terms[idx[q]] != terms[idx[p]];
        }
      }
    }
  }

  /** The loop of `analyze_clusters` that appends one keyword list per cluster. */
  method ExtractKeywords(centers: seq<seq<int>>, terms: seq<string>, numClusters: nat)
    returns (keywords: seq<seq<string>>)
    requires numClusters <= |centers|
    requires forall i :: 0 <= i < numClusters ==> |centers[i]| == |terms|
    ensures |keywords| == numClusters
    ensures forall i :: 0 <= i < numClusters ==> keywords[i] == TopTerms(centers[i], terms)
  {
    keywords := [];
    for i := 0 to numClusters
      invariant |keywords| == i
      invariant forall k :: 0 <= k < i ==> keywords[k] == TopTerms(centers[k], terms)
    {
      assert |centers[i]| == |terms|;
      var topTerms := TopTerms(centers[i], terms);
      ghost var before := keywords;
      keywords := keywords + [topTerms];
      assert keywords[i] == topTerms;
      assert forall k :: 0 <= k < i ==> keywords[k] == before[k];
    }
  }
}
