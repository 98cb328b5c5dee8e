/** Scoring a query against the clusters: count the keywords that occur in
    the lower-cased query, rank the clusters by that count with a stable
    descending sort, and keep the positive ones among the first `top_n`. */
module Scoring {

  /** Python's `needle in haystack` on strings: containment, not a
      word match; the empty string occurs everywhere. */
  function Occurs(needle: string, haystack: string): bool
  {
    if needle <= haystack then true
    else if haystack == [] then false
    else Occurs(needle, haystack[1..])
  }

  /** `sum(word in query for word in keywords)`: how many entries of the
      list occur in the query, duplicates counted each time. */
  function MatchCount(keywords: seq<string>, query: string): nat
  {
    if keywords == [] then 0
    else (if Occurs(keywords[0], query) then 1 else 0) + MatchCount(keywords[1..], query)
  }

  /** One entry `(i, match_count)` of the `scores` list. */
  datatype Score = Score(cluster: nat, count: nat)

  /** The `scores` list the loop of `get_recommendation` builds. */
  function ClusterScores(clusterKeywords: seq<seq<string>>, query: string): (s: seq<Score>)
    ensures |s| == |clusterKeywords|
  {
    seq(|clusterKeywords|, i requires 0 <= i < |clusterKeywords| =>
      Score(i, MatchCount(clusterKeywords[i], query)))
  }

  /** Inserts `x` in front of the first entry whose count is not larger. */
  function InsertByCount(x: Score, t: seq<Score>): (r: seq<Score>)
    ensures |r| == |t| + 1 && multiset(r) == multiset(t) + multiset{x}
  {
    if t == [] || x.count >= t[0].count then [x] + t
    else
      assert t == [t[0]] + t[1..];
      [t[0]] + InsertByCount(x, t[1..])
  }

  /** `sorted(scores, key=lambda x: x[1], reverse=True)`: descending by count,
      and stable, so entries of equal count keep their order. */
  function SortByCount(s: seq<Score>): (r: seq<Score>)
    ensures |r| == |s| && multiset(r) == multiset(s)
  {
    if s == [] then []
    else
      assert s == [s[0]] + s[1..];
      InsertByCount(s[0], SortByCount(s[1..]))
  }

  /** Python's `s[:n]`, negative `n` counting from the end. */
  function PyPrefix<T>(s: seq<T>, n: int): seq<T>
  {
    if n >= 0 then (if n <= |s| then s[..n] else s)
    else if |s| + n >= 0 then s[..|s| + n]
    else []
  }

  /** The entries whose count is positive, in order. */
  function KeepPositive(entries: seq<Score>): seq<Score>
  {
    if entries == [] then []
    else (if entries[0].count > 0 then [entries[0]] else []) + KeepPositive(entries[1..])
  }

  function ClusterIds(entries: seq<Score>): (ids: seq<nat>)
    ensures |ids| == |entries|
  {
    seq(|entries|, k requires 0 <= k < |entries| => entries[k].cluster)
  }

  /** `[i for i, count in entries if count > 0]`. */
  function Positive(entries: seq<Score>): seq<nat>
  {
    ClusterIds(KeepPositive(entries))
  }

  /** `matched_clusters`: the positive clusters among the first `topN` ranked. */
  function Matched(scores: seq<Score>, topN: int): seq<nat>
  {
    Positive(PyPrefix(SortByCount(scores), topN))
  }

  // ---------------------------------------------------------------------
  // Containment and counting

  /** The needle stands in the haystack at offset `i`. */
  predicate SliceAt(needle: string, haystack: string, i: int)
  {
    0 <= i && i + |needle| <= |haystack| && haystack[i..i + |needle|] == needle
  }

  /** `Occurs` is containment: some slice of the haystack equals the needle. */
  lemma {:induction false} OccursIffSlice(needle: string, haystack: string)
    ensures Occurs(needle, haystack) <==> exists i :: SliceAt(needle, haystack, i)
  {
    if needle <= haystack {
      assert SliceAt(needle, haystack, 0);
    } else if haystack == [] {
      assert forall i :: !SliceAt(needle, haystack, i);
    } else {
      var tail := haystack[1..];
      OccursIffSlice(needle, tail);
      forall i | SliceAt(needle, tail, i) ensures SliceAt(needle, haystack, i + 1) {
        assert haystack[i + 1..i + 1 + |needle|] == tail[i..i + |needle|];
      }
      forall i | SliceAt(needle, haystack, i) ensures SliceAt(needle, tail, i - 1) {
        assert i != 0;
        assert tail[i - 1..i - 1 + |needle|] == haystack[i..i + |needle|];
      }
    }
  }

  /** A keyword matches inside a longer word: "cat" is counted for "concatenate". */
  lemma SubstringNotWord()
    ensures Occurs("cat", "concatenate")
  {
    OccursIffSlice("cat", "concatenate");
    assert SliceAt("cat", "concatenate", 3);
  }

  /** The count lies between 0 and the number of keywords; it is 0 exactly when
      no keyword occurs, and the full length exactly when every one does. */
  lemma {:induction false} MatchCountBounds(keywords: seq<string>, query: string)
    ensures MatchCount(keywords, query) <= |keywords|
    ensures MatchCount(keywords, query) == 0 <==>
      forall j :: 0 <= j < |keywords| ==> !Occurs(keywords[j], query)
    ensures MatchCount(keywords, query) == |keywords| <==>
      forall j :: 0 <= j < |keywords| ==> Occurs(keywords[j], query)
  {
    if keywords != [] {
      MatchCountBounds(keywords[1..], query);
      assert forall j :: 1 <= j < |keywords| ==> keywords[j] == keywords[1..][j - 1];
    }
  }

  /** Counting is additive over the keyword list, so a repeated keyword is
      counted once per occurrence in the list. */
  lemma {:induction false} MatchCountAppend(a: seq<string>, b: seq<string>, query: string)
    ensures MatchCount(a + b, query) == MatchCount(a, query) + MatchCount(b, query)
  {
    if a == [] {
      assert a + b == b;
    } else {
      assert (a + b)[1..] == a[1..] + b;
      MatchCountAppend(a[1..], b, query);
    }
  }

  // ---------------------------------------------------------------------
  // The stable descending sort

  predicate SortedDesc(s: seq<Score>)
  {
    forall p, q :: 0 <= p < q < |s| ==> s[p].count >= s[q].count
  }

  /** Strict ranking: higher count first, equal counts by ascending cluster. */
  predicate Ranked(s: seq<Score>)
  {
    forall p, q :: 0 <= p < q < |s| ==>
      s[p].count > s[q].count || (s[p].count == s[q].count && s[p].cluster < s[q].cluster)
  }

  predicate IdsAscending(s: seq<Score>)
  {
    forall p, q :: 0 <= p < q < |s| ==> s[p].cluster < s[q].cluster
  }

  /** The entries of count `c`, in order. */
  function WithCount(c: nat, s: seq<Score>): seq<Score>
  {
    if s == [] then [] else (if s[0].count == c then [s[0]] else []) + WithCount(c, s[1..])
  }

  lemma InMultiset(s: seq<Score>)
    ensures forall k :: 0 <= k < |s| ==> s[k] in multiset(s)
  {
  }

  /** Inserting an entry whose count is at most `c` into entries whose counts
      are at most `c` gives entries whose counts are at most `c`. */
  lemma {:induction false} InsertCountBound(c: nat, x: Score, t: seq<Score>)
    requires x.count <= c
    requires forall k :: 0 <= k < |t| ==> t[k].count <= c
    ensures forall k :: 0 <= k < |InsertByCount(x, t)| ==> InsertByCount(x, t)[k].count <= c
  {
    if t != [] && x.count < t[0].count {
      InsertCountBound(c, x, t[1..]);
      var r := InsertByCount(x, t[1..]);
      assert InsertByCount(x, t) == [t[0]] + r;
    }
  }

  lemma {:induction false} InsertSortedDesc(x: Score, t: seq<Score>)
    requires SortedDesc(t)
    ensures SortedDesc(InsertByCount(x, t))
  {
    if t != [] && x.count < t[0].count {
      assert SortedDesc(t[1..]);
      InsertSortedDesc(x, t[1..]);
      InsertCountBound(t[0].count, x, t[1..]);
      var r := InsertByCount(x, t[1..]);
      assert InsertByCount(x, t) == [t[0]] + r;
    }
  }

  lemma {:induction false} SortByCountSortedDesc(s: seq<Score>)
    ensures SortedDesc(SortByCount(s))
  {
    if s != [] {
      SortByCountSortedDesc(s[1..]);
      InsertSortedDesc(s[0], SortByCount(s[1..]));
    }
  }

  lemma {:induction false} WithCountAppend(c: nat, a: seq<Score>, b: seq<Score>)
    ensures WithCount(c, a + b) == WithCount(c, a) + WithCount(c, b)
  {
    if a == [] {
      assert a + b == b;
    } else {
      var head := if a[0].count == c then [a[0]] else [];
      assert (a + b)[0] == a[0];
      assert (a + b)[1..] == a[1..] + b;
      assert WithCount(c, a + b) == head + WithCount(c, a[1..] + b);
      assert WithCount(c, a) == head + WithCount(c, a[1..]);
      WithCountAppend(c, a[1..], b);
    }
  }

  lemma {:induction false} InsertWithCount(c: nat, x: Score, t: seq<Score>)
    requires SortedDesc(t)
    ensures WithCount(c, InsertByCount(x, t)) == (if x.count == c then [x] else []) + WithCount(c, t)
  {
    if t == [] || x.count >= t[0].count {
      assert ([x] + t)[1..] == t;
    } else {
      InsertWithCount(c, x, t[1..]);
      WithCountAppend(c, [t[0]], InsertByCount(x, t[1..]));
      assert WithCount(c, [t[0]]) == (if t[0].count == c then [t[0]] else []) + WithCount(c, []);
    }
  }

  /** The sort is stable: for every count, the entries with that count come out
      in the order they went in. */
  lemma {:induction false} SortByCountStable(c: nat, s: seq<Score>)
    ensures WithCount(c, SortByCount(s)) == WithCount(c, s)
  {
    if s != [] {
      SortByCountStable(c, s[1..]);
      SortByCountSortedDesc(s[1..]);
      InsertWithCount(c, s[0], SortByCount(s[1..]));
    }
  }

  /** `a` comes before `b` in the ranking. */
  predicate Outranks(a: Score, b: Score)
  {
    a.count > b.count || (a.count == b.count && a.cluster < b.cluster)
  }

  /** An entry that outranks `x` and every entry of `t` outranks every entry
      of the insertion of `x` into `t`. */
  lemma {:induction false} InsertRankBound(y: Score, x: Score, t: seq<Score>)
    requires Outranks(y, x)
    requires forall k :: 0 <= k < |t| ==> Outranks(y, t[k])
    ensures forall k :: 0 <= k < |InsertByCount(x, t)| ==> Outranks(y, InsertByCount(x, t)[k])
  {
    if t != [] && x.count < t[0].count {
      InsertRankBound(y, x, t[1..]);
      var r := InsertByCount(x, t[1..]);
      assert InsertByCount(x, t) == [t[0]] + r;
    }
  }

  lemma {:induction false} InsertRanked(x: Score, t: seq<Score>)
    requires Ranked(t)
    requires forall k :: 0 <= k < |t| ==> x.cluster < t[k].cluster
    ensures Ranked(InsertByCount(x, t))
  {
    if t != [] && x.count < t[0].count {
      assert Ranked(t[1..]);
      InsertRanked(x, t[1..]);
      assert forall k :: 0 <= k < |t[1..]| ==> Outranks(t[0], t[1..][k]);
      InsertRankBound(t[0], x, t[1..]);
      var r := InsertByCount(x, t[1..]);
      assert InsertByCount(x, t) == [t[0]] + r;
    }
  }

  /** Sorting entries listed by ascending cluster ranks them strictly: higher
      count first, and equal counts by ascending cluster. */
  lemma {:induction false} SortByCountRanked(s: seq<Score>)
    requires IdsAscending(s)
    ensures Ranked(SortByCount(s))
  {
    if s != [] {
      SortByCountRanked(s[1..]);
      var t := SortByCount(s[1..]);
      InMultiset(t);
      forall k | 0 <= k < |t| ensures s[0].cluster < t[k].cluster {
        assert t[k] in multiset(s[1..]);
        assert t[k] in s[1..];
      }
      InsertRanked(s[0], t);
    }
  }

  /** The ranking of the clusters: a permutation of the `(i, count)` entries,
      counts non-increasing, and ties in ascending cluster order. */
  lemma RankingSpec(clusterKeywords: seq<seq<string>>, query: string)
    ensures multiset(SortByCount(ClusterScores(clusterKeywords, query))) ==
            multiset(ClusterScores(clusterKeywords, query))
    ensures SortedDesc(SortByCount(ClusterScores(clusterKeywords, query)))
    ensures Ranked(SortByCount(ClusterScores(clusterKeywords, query)))
  {
    var s := ClusterScores(clusterKeywords, query);
    SortByCountSortedDesc(s);
    SortByCountRanked(s);
  }

  // ---------------------------------------------------------------------
  // Selecting the matched clusters

  /** `e` is the score entry of its cluster for this query. */
  predicate IsEntryOf(e: Score, clusterKeywords: seq<seq<string>>, query: string)
  {
    e.cluster < |clusterKeywords| && e.count == MatchCount(clusterKeywords[e.cluster], query)
  }

  predicate AllEntriesOf(s: seq<Score>, clusterKeywords: seq<seq<string>>, query: string)
  {
    forall e :: e in s ==> IsEntryOf(e, clusterKeywords, query)
  }

  /** The count of cluster `i` for the query. */
  function CountOf(clusterKeywords: seq<seq<string>>, query: string, i: nat): nat
    requires i < |clusterKeywords|
  {
    MatchCount(clusterKeywords[i], query)
  }

  lemma PyPrefixOf<T>(s: seq<T>, n: int)
    ensures PyPrefix(s, n) <= s
    ensures n >= 0 ==> |PyPrefix(s, n)| == if n <= |s| then n else |s|
  {
  }

  /** A negative `top_n` drops that many entries from the end, as Python's
      slicing does. */
  lemma PyPrefixNegative<T>(s: seq<T>, n: int)
    requires n < 0
    ensures |PyPrefix(s, n)| == if |s| + n >= 0 then |s| + n else 0
  {
  }

  /** The filter keeps exactly the positive entries. */
  lemma {:induction false} KeepPositiveMembers(s: seq<Score>)
    ensures forall e :: e in KeepPositive(s) ==> e in s && e.count > 0
    ensures forall e :: e in s && e.count > 0 ==> e in KeepPositive(s)
    ensures |KeepPositive(s)| <= |s|
  {
    if s != [] {
      var t := s[1..];
      KeepPositiveMembers(t);
      var head := if s[0].count > 0 then [s[0]] else [];
      assert KeepPositive(s) == head + KeepPositive(t);
      assert s == [s[0]] + t;
    }
  }

  /** An entry that outranks every entry of `t` outranks every entry that
      survives the filter. */
  lemma {:induction false} KeepPositiveRankBound(y: Score, t: seq<Score>)
    requires forall k :: 0 <= k < |t| ==> Outranks(y, t[k])
    ensures forall k :: 0 <= k < |KeepPositive(t)| ==> Outranks(y, KeepPositive(t)[k])
  {
    if t != [] {
      assert forall k :: 0 <= k < |t[1..]| ==> Outranks(y, t[1..][k]);
      KeepPositiveRankBound(y, t[1..]);
      var head := if t[0].count > 0 then [t[0]] else [];
      assert KeepPositive(t) == head + KeepPositive(t[1..]);
    }
  }

  /** Filtering a ranking leaves a ranking. */
  lemma {:induction false} KeepPositiveRanked(s: seq<Score>)
    requires Ranked(s)
    ensures Ranked(KeepPositive(s))
  {
    if s != [] {
      var t := s[1..];
      assert Ranked(t);
      KeepPositiveRanked(t);
      var r := KeepPositive(t);
      if s[0].count > 0 {
        assert KeepPositive(s) == [s[0]] + r;
        assert forall k :: 0 <= k < |t| ==> Outranks(s[0], t[k]) by {
          forall k | 0 <= k < |t| ensures Outranks(s[0], t[k]) {
            assert t[k] == s[k + 1];
          }
        }
        KeepPositiveRankBound(s[0], t);
        assert forall q :: 0 <= q < |r| ==> Outranks(s[0], r[q]);
      } else {
        assert KeepPositive(s) == r;
      }
    }
  }

  /** The clusters that `Positive` lists carry a positive count and come out
      in ranking order. */
  lemma PositiveRanked(s: seq<Score>, clusterKeywords: seq<seq<string>>, query: string)
    requires Ranked(s) && AllEntriesOf(s, clusterKeywords, query)
    ensures |Positive(s)| <= |s|
    ensures forall k :: 0 <= k < |Positive(s)| ==>
      Positive(s)[k] < |clusterKeywords| && CountOf(clusterKeywords, query, Positive(s)[k]) > 0
    ensures forall p, q :: 0 <= p < q < |Positive(s)| ==>
      Positive(s)[p] < |clusterKeywords| && Positive(s)[q] < |clusterKeywords| &&
      (CountOf(clusterKeywords, query, Positive(s)[p]) > CountOf(clusterKeywords, query, Positive(s)[q]) ||
       (CountOf(clusterKeywords, query, Positive(s)[p]) == CountOf(clusterKeywords, query, Positive(s)[q]) &&
        Positive(s)[p] < Positive(s)[q]))
  {
    KeepPositiveMembers(s);
    KeepPositiveRanked(s);
    var r := KeepPositive(s);
    assert forall k :: 0 <= k < |r| ==> r[k] in s;
  }

  lemma AllEntriesOfSorted(clusterKeywords: seq<seq<string>>, query: string)
    ensures AllEntriesOf(SortByCount(ClusterScores(clusterKeywords, query)), clusterKeywords, query)
    ensures forall i :: 0 <= i < |clusterKeywords| ==>
      Score(i, CountOf(clusterKeywords, query, i)) in SortByCount(ClusterScores(clusterKeywords, query))
  {
    var sc := ClusterScores(clusterKeywords, query);
    var s := SortByCount(sc);
    forall e | e in s ensures IsEntryOf(e, clusterKeywords, query) {
      assert e in multiset(sc);
      assert e in sc;
    }
    forall i | 0 <= i < |clusterKeywords|
      ensures Score(i, CountOf(clusterKeywords, query, i)) in s
    {
      assert sc[i] == Score(i, CountOf(clusterKeywords, query, i));
      assert sc[i] in multiset(s);
    }
  }

  /** The ranked entries before the cut are ranked entries of the clusters. */
  lemma PrefixOfRanking(clusterKeywords: seq<seq<string>>, query: string, topN: int)
    ensures Ranked(PyPrefix(SortByCount(ClusterScores(clusterKeywords, query)), topN))
    ensures AllEntriesOf(PyPrefix(SortByCount(ClusterScores(clusterKeywords, query)), topN), clusterKeywords, query)
  {
    var s := SortByCount(ClusterScores(clusterKeywords, query));
    RankingSpec(clusterKeywords, query);
    AllEntriesOfSorted(clusterKeywords, query);
    var pre := PyPrefix(s, topN);
    PyPrefixOf(s, topN);
    assert forall k :: 0 <= k < |pre| ==> pre[k] == s[k];
    forall e | e in pre ensures e in s {
      var k :| 0 <= k < |pre| && pre[k] == e;
      assert s[k] == e;
    }
  }

  /** `matched_clusters` for a query: at most `top_n` clusters (for `top_n >= 0`),
      each of them a cluster with a positive count, ordered by count and then
      by ascending cluster, so without repetition. */
  lemma MatchedSpec(clusterKeywords: seq<seq<string>>, query: string, topN: int)
    ensures topN >= 0 ==> |Matched(ClusterScores(clusterKeywords, query), topN)| <= topN
    ensures |Matched(ClusterScores(clusterKeywords, query), topN)| <= |clusterKeywords|
    ensures forall k :: 0 <= k < |Matched(ClusterScores(clusterKeywords, query), topN)| ==>
      Matched(ClusterScores(clusterKeywords, query), topN)[k] < |clusterKeywords| &&
      CountOf(clusterKeywords, query, Matched(ClusterScores(clusterKeywords, query), topN)[k]) > 0
    ensures forall p, q :: 0 <= p < q < |Matched(ClusterScores(clusterKeywords, query), topN)| ==>
      var m := Matched(ClusterScores(clusterKeywords, query), topN);
      m[p] < |clusterKeywords| && m[q] < |clusterKeywords| &&
      (CountOf(clusterKeywords, query, m[p]) > CountOf(clusterKeywords, query, m[q]) ||
       (CountOf(clusterKeywords, query, m[p]) == CountOf(clusterKeywords, query, m[q]) && m[p] < m[q]))
  {
    var s := SortByCount(ClusterScores(clusterKeywords, query));
    var pre := PyPrefix(s, topN);
    PyPrefixOf(s, topN);
    PrefixOfRanking(clusterKeywords, query, topN);
    PositiveRanked(pre, clusterKeywords, query);
  }

  /** Some cluster is recommended exactly when `top_n >= 1` and some
      cluster has a positive count (for `top_n >= 0`). */
  lemma MatchedNonEmptyIff(clusterKeywords: seq<seq<string>>, query: string, topN: int)
    requires topN >= 0
    ensures Matched(ClusterScores(clusterKeywords, query), topN) != [] <==>
      topN >= 1 && exists i :: 0 <= i < |clusterKeywords| && CountOf(clusterKeywords, query, i) > 0
  {
    var s := SortByCount(ClusterScores(clusterKeywords, query));
    var m := Matched(ClusterScores(clusterKeywords, query), topN);
    if m != [] {
      MatchedSpec(clusterKeywords, query, topN);
      assert CountOf(clusterKeywords, query, m[0]) > 0;
    }
    if topN >= 1 && exists i :: 0 <= i < |clusterKeywords| && CountOf(clusterKeywords, query, i) > 0 {
      var i :| 0 <= i < |clusterKeywords| && CountOf(clusterKeywords, query, i) > 0;
      RankingSpec(clusterKeywords, query);
      AllEntriesOfSorted(clusterKeywords, query);
      var j :| 0 <= j < |s| && s[j] == Score(i, CountOf(clusterKeywords, query, i));
      PositivePrefixNonEmpty(s, topN, j);
    }
  }

  /** In a ranking by count with some positive entry, the first `top_n >= 1`
      entries contain a positive one: the first. */
  lemma PositivePrefixNonEmpty(s: seq<Score>, topN: int, j: nat)
    requires SortedDesc(s) && topN >= 1
    requires j < |s| && s[j].count > 0
    ensures Positive(PyPrefix(s, topN)) != []
  {
    assert s[0].count >= s[j].count;
    var pre := PyPrefix(s, topN);
    assert pre[0] == s[0];
    assert KeepPositive(pre) == [pre[0]] + KeepPositive(pre[1..]);
  }

  /** When `top_n` covers every cluster, exactly the clusters with a positive
      count are recommended. */
  lemma MatchedAllPositive(clusterKeywords: seq<seq<string>>, query: string, topN: int)
    requires topN >= |clusterKeywords|
    ensures forall i :: 0 <= i < |clusterKeywords| ==>
      (i in Matched(ClusterScores(clusterKeywords, query), topN) <==> CountOf(clusterKeywords, query, i) > 0)
  {
    var s := SortByCount(ClusterScores(clusterKeywords, query));
    assert PyPrefix(s, topN) == s;
    MatchedSpec(clusterKeywords, query, topN);
    AllEntriesOfSorted(clusterKeywords, query);
    KeepPositiveMembers(s);
    var r := KeepPositive(s);
    forall i | 0 <= i < |clusterKeywords| && CountOf(clusterKeywords, query, i) > 0
      ensures i in Positive(s)
    {
      var e := Score(i, CountOf(clusterKeywords, query, i));
      assert e in r;
      var k :| 0 <= k < |r| && r[k] == e;
      assert Positive(s)[k] == i;
    }
  }

  /** A filter that finds every entry positive keeps them all. */
  lemma {:induction false} KeepPositiveAll(s: seq<Score>)
    requires forall k :: 0 <= k < |s| ==> s[k].count > 0
    ensures KeepPositive(s) == s
  {
    if s != [] {
      KeepPositiveAll(s[1..]);
    }
  }

  /** Every positive entry's cluster is listed by `Positive`. */
  lemma PositiveListsPositive(s: seq<Score>)
    ensures forall q :: 0 <= q < |s| && s[q].count > 0 ==> s[q].cluster in Positive(s)
  {
    KeepPositiveMembers(s);
    var r := KeepPositive(s);
    forall q | 0 <= q < |s| && s[q].count > 0
      ensures s[q].cluster in Positive(s)
    {
      assert s[q] in r;
      var k :| 0 <= k < |r| && r[k] == s[q];
      assert Positive(s)[k] == s[q].cluster;
    }
  }

  /** Cutting a ranking after `topN` entries and keeping the positive ones:
      when a positive entry is not kept, the cut kept `topN` entries, all of
      them positive and ranked above it. */
  lemma CutBelow(s: seq<Score>, topN: nat, p: nat)
    requires Ranked(s) && p < |s| && s[p].count > 0
    requires s[p].cluster !in Positive(PyPrefix(s, topN))
    ensures topN < |s| && |Positive(PyPrefix(s, topN))| == topN
    ensures forall k :: 0 <= k < topN ==>
      Positive(PyPrefix(s, topN))[k] == s[k].cluster &&
      (s[k].count > s[p].count || (s[k].count == s[p].count && s[k].cluster < s[p].cluster))
  {
    var pre := PyPrefix(s, topN);
    PyPrefixOf(s, topN);
    PositiveListsPositive(pre);
    assert forall q :: 0 <= q < |pre| ==> pre[q] == s[q];
    assert p >= |pre|;
    KeepPositiveAll(pre);
  }

  /** The matched clusters are the top of the ranking: a cluster with a
      positive count is left out only when `top_n` clusters were recommended,
      each ranked above it (a larger count, or the same count and a smaller
      cluster). */
  lemma MatchedIsTopN(clusterKeywords: seq<seq<string>>, query: string, topN: int)
    requires topN >= 0
    ensures forall i ::
      (0 <= i < |clusterKeywords| && CountOf(clusterKeywords, query, i) > 0 &&
       i !in Matched(ClusterScores(clusterKeywords, query), topN)) ==>
        |Matched(ClusterScores(clusterKeywords, query), topN)| == topN &&
        forall k :: 0 <= k < |Matched(ClusterScores(clusterKeywords, query), topN)| ==>
          var m := Matched(ClusterScores(clusterKeywords, query), topN);
          m[k] < |clusterKeywords| &&
          (CountOf(clusterKeywords, query, m[k]) > CountOf(clusterKeywords, query, i) ||
           (CountOf(clusterKeywords, query, m[k]) == CountOf(clusterKeywords, query, i) && m[k] < i))
  {
    var s := SortByCount(ClusterScores(clusterKeywords, query));
    var m := Matched(ClusterScores(clusterKeywords, query), topN);
    RankingSpec(clusterKeywords, query);
    AllEntriesOfSorted(clusterKeywords, query);
    forall i | 0 <= i < |clusterKeywords| && CountOf(clusterKeywords, query, i) > 0 && i !in m
      ensures |m| == topN
      ensures forall k :: 0 <= k < |m| ==>
        m[k] < |clusterKeywords| &&
        (CountOf(clusterKeywords, query, m[k]) > CountOf(clusterKeywords, query, i) ||
         (CountOf(clusterKeywords, query, m[k]) == CountOf(clusterKeywords, query, i) && m[k] < i))
    {
      var p :| 0 <= p < |s| && s[p] == Score(i, CountOf(clusterKeywords, query, i));
      CutBelow(s, topN, p);
      forall k | 0 <= k < |m|
        ensures m[k] < |clusterKeywords| && CountOf(clusterKeywords, query, m[k]) == s[k].count
      {
        assert IsEntryOf(s[k], clusterKeywords, query);
      }
    }
  }
}
