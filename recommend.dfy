/** `get_recommendation`: the reply the chatbot sends for a free-text query,
    either title lines for the best matching clusters or a summary of all
    clusters when nothing matches. */
module Recommend {
  import opened Text
  import opened Format
  import opened Scoring

  /** The first sentence of the matched reply and of the fallback reply. */
  const MatchedIntro := "We analyzed" + " our podcast database using NLP and clustered it by topic."
  const FallbackIntro := "We couldn’t" + " find a strong match based on your input."
  const FallbackLibrary := "Here’s how our podcast library is clustered:"

  /** How many keywords describe a cluster, and how many titles are shown. */
  const DescriptionLength: nat := 5
  const TitlesShown: nat := 5

  /** `top_n` when the caller gives none (line 70), as the webhook does. */
  const DefaultTopN: int := 3

  /** Python's `s[:n]` for `n >= 0`. */
  function Take<T>(s: seq<T>, n: nat): (r: seq<T>)
    ensures |r| == if n <= |s| then n else |s|
    ensures r <= s
  {
    PyPrefixOf(s, n);
    PyPrefix(s, n)
  }

  /** The second header line; it quotes the query as it was typed. */
  function InterestLine(userInput: string): string
  {
    "Based on your interest in \"" + userInput + "\", you’ll likely enjoy:"
  }

  /** `", ".join(keywords[:5])`. */
  function Description(keywords: seq<string>): string
  {
    Join(", ", Take(keywords, DescriptionLength))
  }

  /** `Cluster {idx+1}`: clusters are shown numbered from 1. */
  function ClusterLabel(idx: nat): string
  {
    "Cluster " + NatToString(idx + 1)
  }

  /** `- {title} (Cluster {idx+1}: {cluster_desc})`. */
  function TitleLine(title: string, idx: nat, desc: string): string
  {
    "- " + title + " (" + ClusterLabel(idx) + ": " + desc + ")"
  }

  function TitleLines(titles: seq<string>, idx: nat, desc: string): (lines: seq<string>)
    ensures |lines| == |titles|
  {
    seq(|titles|, k requires 0 <= k < |titles| => TitleLine(titles[k], idx, desc))
  }

  predicate ValidIds(ids: seq<nat>, clusterKeywords: seq<seq<string>>, clusterTitles: seq<seq<string>>)
  {
    forall k :: 0 <= k < |ids| ==> ids[k] < |clusterKeywords| && ids[k] < |clusterTitles|
  }

  /** The lines for one matched cluster: its first five titles. */
  function ClusterBlock(clusterKeywords: seq<seq<string>>, clusterTitles: seq<seq<string>>, idx: nat): seq<string>
    requires idx < |clusterKeywords| && idx < |clusterTitles|
  {
    TitleLines(Take(clusterTitles[idx], TitlesShown), idx, Description(clusterKeywords[idx]))
  }

  /** The title lines of the matched clusters, cluster after cluster. */
  function Blocks(clusterKeywords: seq<seq<string>>, clusterTitles: seq<seq<string>>, matched: seq<nat>): seq<string>
    requires ValidIds(matched, clusterKeywords, clusterTitles)
  {
    if matched == [] then []
    else
      var n := |matched| - 1;
      Blocks(clusterKeywords, clusterTitles, matched[..n]) + ClusterBlock(clusterKeywords, clusterTitles, matched[n])
  }

  /** The `response` list of the matched branch. */
  function MatchedLines(userInput: string, clusterKeywords: seq<seq<string>>, clusterTitles: seq<seq<string>>,
                        matched: seq<nat>): seq<string>
    requires ValidIds(matched, clusterKeywords, clusterTitles)
  {
    [MatchedIntro, InterestLine(userInput)] + Blocks(clusterKeywords, clusterTitles, matched)
  }

  /** `Cluster {i+1}: {', '.join(keywords[:5])}`. */
  function SummaryLine(i: nat, keywords: seq<string>): string
  {
    ClusterLabel(i) + ": " + Description(keywords)
  }

  /** `cluster_summary`: one line per cluster. */
  function ClusterSummary(clusterKeywords: seq<seq<string>>): (lines: seq<string>)
    ensures |lines| == |clusterKeywords|
  {
    seq(|clusterKeywords|, i requires 0 <= i < |clusterKeywords| => SummaryLine(i, clusterKeywords[i]))
  }

  /** The reply of the fallback branch. */
  function FallbackText(clusterKeywords: seq<seq<string>>): string
  {
    FallbackIntro + "\n" + FallbackLibrary + "\n" + Join("\n", ClusterSummary(clusterKeywords))
  }

  /** The matched clusters for a query, named for the reply's use. */
  function MatchedFor(userInput: string, clusterKeywords: seq<seq<string>>, topN: int): seq<nat>
  {
    Matched(ClusterScores(clusterKeywords, Lower(userInput)), topN)
  }

  lemma MatchedForValid(userInput: string, clusterKeywords: seq<seq<string>>, clusterTitles: seq<seq<string>>, topN: int)
    requires |clusterKeywords| <= |clusterTitles|
    ensures ValidIds(MatchedFor(userInput, clusterKeywords, topN), clusterKeywords, clusterTitles)
  {
    MatchedSpec(clusterKeywords, Lower(userInput), topN);
  }

  /** The reply `get_recommendation` returns. */
  function Reply(userInput: string, clusterKeywords: seq<seq<string>>, clusterTitles: seq<seq<string>>,
                 topN: int): string
    requires |clusterKeywords| <= |clusterTitles|
  {
    var matched := MatchedFor(userInput, clusterKeywords, topN);
    MatchedForValid(userInput, clusterKeywords, clusterTitles, topN);
    if matched != [] then Join("\n", MatchedLines(userInput, clusterKeywords, clusterTitles, matched))
    else FallbackText(clusterKeywords)
  }

  /** Lines 73-76: one `(i, match_count)` entry per cluster, appended in order. */
  method ScoreClusters(clusterKeywords: seq<seq<string>>, userInputLower: string) returns (scores: seq<Score>)
    ensures |scores| == |clusterKeywords|
    ensures forall i :: 0 <= i < |clusterKeywords| ==>
      scores[i] == Score(i, MatchCount(clusterKeywords[i], userInputLower))
  {
    scores := [];
    for i := 0 to |clusterKeywords|
      invariant |scores| == i
      invariant forall k :: 0 <= k < i ==> scores[k] == Score(k, MatchCount(clusterKeywords[k], userInputLower))
    {
      var matchCount := MatchCount(clusterKeywords[i], userInputLower);
      scores := scores + [Score(i, matchCount)];
    }
  }

  /** Lines 82-88: the two header lines, then for each matched cluster one
      line per title among its first five. */
  method BuildResponse(userInput: string, clusterKeywords: seq<seq<string>>, clusterTitles: seq<seq<string>>,
                       matched: seq<nat>)
    returns (response: seq<string>)
    requires ValidIds(matched, clusterKeywords, clusterTitles)
    ensures response == MatchedLines(userInput, clusterKeywords, clusterTitles, matched)
  {
    response := [MatchedIntro, InterestLine(userInput)];
    for j := 0 to |matched|
      invariant response == MatchedLines(userInput, clusterKeywords, clusterTitles, matched[..j])
    {
      var idx := matched[j];
      var clusterDesc := Description(clusterKeywords[idx]);
      var topTitles := Take(clusterTitles[idx], TitlesShown);
      ghost var before := response;
      for k := 0 to |topTitles|
        invariant response == before + TitleLines(topTitles[..k], idx, clusterDesc)
      {
        assert TitleLines(topTitles[..k + 1], idx, clusterDesc) ==
          TitleLines(topTitles[..k], idx, clusterDesc) + [TitleLine(topTitles[k], idx, clusterDesc)];
        response := response + [TitleLine(topTitles[k], idx, clusterDesc)];
      }
      assert topTitles[..|topTitles|] == topTitles;
      assert matched[..j + 1][..j] == matched[..j];
    }
    assert matched[..|matched|] == matched;
  }

  /** `get_recommendation` (lines 70-93): lower-case the query, score, rank,
      select, and answer from the matched branch or the fallback branch. */
  method GetRecommendation(userInput: string, clusterKeywords: seq<seq<string>>,
                           clusterTitles: seq<seq<string>>, topN: int)
    returns (reply: string)
    requires |clusterKeywords| <= |clusterTitles|
    ensures reply == Reply(userInput, clusterKeywords, clusterTitles, topN)
    ensures topN >= 0 ==>
      (FallbackIntro <= reply <==>
       !(topN >= 1 && exists i :: 0 <= i < |clusterKeywords| && MatchCount(clusterKeywords[i], Lower(userInput)) > 0))
  {
    var userInputLower := Lower(userInput);
    var scores := ScoreClusters(clusterKeywords, userInputLower);
    assert scores == ClusterScores(clusterKeywords, userInputLower);
    var ranked := SortByCount(scores);
    var matched := Positive(PyPrefix(ranked, topN));
    MatchedForValid(userInput, clusterKeywords, clusterTitles, topN);
    if matched != [] {
      var response := BuildResponse(userInput, clusterKeywords, clusterTitles, matched);
      reply := Join("\n", response);
    } else {
      reply := FallbackText(clusterKeywords);
    }
    ReplyBranch(userInput, clusterKeywords, clusterTitles, topN);
  }

  // ---------------------------------------------------------------------
  // Properties of the reply

  /** Which branch the reply comes from can be read off its first line: it
      opens with the fallback sentence exactly when no cluster is matched,
      and for a non-negative `topN` that happens exactly when `topN` is zero
      or no keyword of any cluster occurs in the lower-cased query. */
  lemma ReplyBranch(userInput: string, clusterKeywords: seq<seq<string>>, clusterTitles: seq<seq<string>>, topN: int)
    requires |clusterKeywords| <= |clusterTitles|
    ensures FallbackIntro <= Reply(userInput, clusterKeywords, clusterTitles, topN) <==>
      MatchedFor(userInput, clusterKeywords, topN) == []
    ensures topN >= 0 ==>
      (MatchedFor(userInput, clusterKeywords, topN) == [] <==>
       !(topN >= 1 && exists i :: 0 <= i < |clusterKeywords| && MatchCount(clusterKeywords[i], Lower(userInput)) > 0))
  {
    var matched := MatchedFor(userInput, clusterKeywords, topN);
    if topN >= 0 {
      MatchedNonEmptyIff(clusterKeywords, Lower(userInput), topN);
      if exists i :: 0 <= i < |clusterKeywords| && MatchCount(clusterKeywords[i], Lower(userInput)) > 0 {
        var i :| 0 <= i < |clusterKeywords| && MatchCount(clusterKeywords[i], Lower(userInput)) > 0;
        assert CountOf(clusterKeywords, Lower(userInput), i) > 0;
      }
    }
    MatchedForValid(userInput, clusterKeywords, clusterTitles, topN);
    if matched != [] {
      MatchedReplyOpens(userInput, clusterKeywords, clusterTitles, matched);
      MatchedIntroIsNotFallback(MatchedTail(userInput, clusterKeywords, clusterTitles, matched));
    } else {
      FallbackOpens(clusterKeywords);
    }
  }

  lemma FallbackOpens(clusterKeywords: seq<seq<string>>)
    ensures FallbackIntro <= FallbackText(clusterKeywords)
  {
  }

  /** What follows the matched header in a matched reply. */
  function MatchedTail(userInput: string, clusterKeywords: seq<seq<string>>, clusterTitles: seq<seq<string>>,
                       matched: seq<nat>): string
    requires ValidIds(matched, clusterKeywords, clusterTitles)
  {
    "\n" + Join("\n", MatchedLines(userInput, clusterKeywords, clusterTitles, matched)[1..])
  }

  lemma MatchedReplyOpens(userInput: string, clusterKeywords: seq<seq<string>>, clusterTitles: seq<seq<string>>,
                          matched: seq<nat>)
    requires ValidIds(matched, clusterKeywords, clusterTitles)
    ensures Join("\n", MatchedLines(userInput, clusterKeywords, clusterTitles, matched)) ==
      MatchedIntro + MatchedTail(userInput, clusterKeywords, clusterTitles, matched)
  {
  }

  /** A reply that opens with the matched header cannot open with the
      fallback sentence: the two part at their fourth character. The two
      constants are written as their opening words plus the rest so that
      this character lies in a short literal the verifier can index. */
  lemma MatchedIntroIsNotFallback(rest: string)
    ensures !(FallbackIntro <= MatchedIntro + rest)
  {
    assert (MatchedIntro + rest)[3] == MatchedIntro[3] == 'a';
    assert FallbackIntro[3] == 'c';
  }

  function TitleCount(clusterTitles: seq<seq<string>>, matched: seq<nat>): nat
    requires forall k :: 0 <= k < |matched| ==> matched[k] < |clusterTitles|
  {
    if matched == [] then 0
    else
      var n := |matched| - 1;
      var shown := |clusterTitles[matched[n]]|;
      TitleCount(clusterTitles, matched[..n]) + (if shown < TitlesShown then shown else TitlesShown)
  }

  /** Where line `k` of the `j`-th matched cluster stands among the title
      lines: after the lines of the clusters matched before it. */
  function LinePosition(clusterTitles: seq<seq<string>>, matched: seq<nat>, j: nat, k: nat): nat
    requires forall i :: 0 <= i < |matched| ==> matched[i] < |clusterTitles|
    requires j <= |matched|
  {
    TitleCount(clusterTitles, matched[..j]) + k
  }

  lemma {:induction false} BlocksLength(clusterKeywords: seq<seq<string>>, clusterTitles: seq<seq<string>>,
                                        matched: seq<nat>)
    requires ValidIds(matched, clusterKeywords, clusterTitles)
    ensures |Blocks(clusterKeywords, clusterTitles, matched)| == TitleCount(clusterTitles, matched)
  {
    if matched != [] {
      BlocksLength(clusterKeywords, clusterTitles, matched[..|matched| - 1]);
    }
  }

  /** Line `k` of the `j`-th matched cluster's block. */
  lemma {:induction false} BlocksLineAt(clusterKeywords: seq<seq<string>>, clusterTitles: seq<seq<string>>,
                                        matched: seq<nat>, j: nat, k: nat)
    requires ValidIds(matched, clusterKeywords, clusterTitles)
    requires j < |matched| && k < |clusterTitles[matched[j]]| && k < TitlesShown
    ensures LinePosition(clusterTitles, matched, j, k) < |Blocks(clusterKeywords, clusterTitles, matched)|
    ensures Blocks(clusterKeywords, clusterTitles, matched)[LinePosition(clusterTitles, matched, j, k)] ==
      TitleLine(clusterTitles[matched[j]][k], matched[j], Description(clusterKeywords[matched[j]]))
  {
    var n := |matched| - 1;
    var front := matched[..n];
    var b := Blocks(clusterKeywords, clusterTitles, matched);
    var bf := Blocks(clusterKeywords, clusterTitles, front);
    var last := ClusterBlock(clusterKeywords, clusterTitles, matched[n]);
    assert b == bf + last;
    BlocksLength(clusterKeywords, clusterTitles, front);
    var line := TitleLine(clusterTitles[matched[j]][k], matched[j], Description(clusterKeywords[matched[j]]));
    if j < n {
      assert front[..j] == matched[..j];
      assert front[j] == matched[j];
      BlocksLineAt(clusterKeywords, clusterTitles, front, j, k);
      TitleCountMonotone(clusterTitles, front, j + 1);
      assert front[..j + 1][..j] == front[..j];
      var pos := LinePosition(clusterTitles, matched, j, k);
      assert pos == LinePosition(clusterTitles, front, j, k);
      assert pos < |bf| && bf[pos] == line;
      assert b[pos] == bf[pos];
    } else {
      assert matched[..j] == front;
      assert Take(clusterTitles[matched[n]], TitlesShown)[k] == clusterTitles[matched[n]][k];
      assert last[k] == line;
      assert b[|bf| + k] == last[k];
    }
  }

  /** The title lines of the matched clusters in order: the lines of the
      `j`-th matched cluster start after the lines of the clusters before it,
      one line per title among its first five. */
  lemma {:induction false} BlocksLayout(clusterKeywords: seq<seq<string>>, clusterTitles: seq<seq<string>>, matched: seq<nat>)
    requires ValidIds(matched, clusterKeywords, clusterTitles)
    ensures |Blocks(clusterKeywords, clusterTitles, matched)| == TitleCount(clusterTitles, matched)
    ensures forall j: nat, k: nat :: j < |matched| && k < |clusterTitles[matched[j]]| && k < TitlesShown ==>
      LinePosition(clusterTitles, matched, j, k) < |Blocks(clusterKeywords, clusterTitles, matched)| &&
      Blocks(clusterKeywords, clusterTitles, matched)[LinePosition(clusterTitles, matched, j, k)] ==
        TitleLine(clusterTitles[matched[j]][k], matched[j], Description(clusterKeywords[matched[j]]))
  {
    BlocksLength(clusterKeywords, clusterTitles, matched);
    forall j: nat, k: nat | j < |matched| && k < |clusterTitles[matched[j]]| && k < TitlesShown
      ensures LinePosition(clusterTitles, matched, j, k) < |Blocks(clusterKeywords, clusterTitles, matched)| &&
        Blocks(clusterKeywords, clusterTitles, matched)[LinePosition(clusterTitles, matched, j, k)] ==
          TitleLine(clusterTitles[matched[j]][k], matched[j], Description(clusterKeywords[matched[j]]))
    {
      BlocksLineAt(clusterKeywords, clusterTitles, matched, j, k);
    }
  }

  lemma {:induction false} TitleCountMonotone(clusterTitles: seq<seq<string>>, matched: seq<nat>, j: nat)
    requires forall k :: 0 <= k < |matched| ==> matched[k] < |clusterTitles|
    requires j <= |matched|
    ensures TitleCount(clusterTitles, matched[..j]) <= TitleCount(clusterTitles, matched)
  {
    if j < |matched| {
      var n := |matched| - 1;
      assert matched[..n][..j] == matched[..j];
      TitleCountMonotone(clusterTitles, matched[..n], j);
    } else {
      assert matched[..j] == matched;
    }
  }

  /** The matched reply is its lines joined by newlines: the two header lines,
      then `min(5, |titles|)` title lines per matched cluster. */
  lemma MatchedReplyShape(userInput: string, clusterKeywords: seq<seq<string>>, clusterTitles: seq<seq<string>>,
                          topN: int)
    requires |clusterKeywords| <= |clusterTitles|
    requires MatchedFor(userInput, clusterKeywords, topN) != []
    ensures ValidIds(MatchedFor(userInput, clusterKeywords, topN), clusterKeywords, clusterTitles)
    ensures Reply(userInput, clusterKeywords, clusterTitles, topN) ==
      Join("\n", MatchedLines(userInput, clusterKeywords, clusterTitles, MatchedFor(userInput, clusterKeywords, topN)))
    ensures |MatchedLines(userInput, clusterKeywords, clusterTitles, MatchedFor(userInput, clusterKeywords, topN))| ==
      2 + TitleCount(clusterTitles, MatchedFor(userInput, clusterKeywords, topN))
  {
    var matched := MatchedFor(userInput, clusterKeywords, topN);
    MatchedForValid(userInput, clusterKeywords, clusterTitles, topN);
    BlocksLayout(clusterKeywords, clusterTitles, matched);
  }

  /** The fallback reply is the two fixed lines and then exactly one summary
      line per cluster, joined by newlines; it names no title. */
  lemma FallbackReplyShape(clusterKeywords: seq<seq<string>>)
    requires |clusterKeywords| >= 1
    ensures FallbackText(clusterKeywords) ==
      Join("\n", [FallbackIntro, FallbackLibrary] + ClusterSummary(clusterKeywords))
    ensures |[FallbackIntro, FallbackLibrary] + ClusterSummary(clusterKeywords)| == 2 + |clusterKeywords|
  {
    var summary := ClusterSummary(clusterKeywords);
    JoinAppend("\n", [FallbackIntro, FallbackLibrary], summary);
    assert Join("\n", [FallbackIntro, FallbackLibrary]) == FallbackIntro + "\n" + FallbackLibrary;
  }

  /** `line` is the line of one of the titles of one of the `matched` clusters. */
  predicate NamesMatchedTitle(line: string, clusterKeywords: seq<seq<string>>, clusterTitles: seq<seq<string>>,
                              matched: seq<nat>)
    requires ValidIds(matched, clusterKeywords, clusterTitles)
  {
    exists j, k :: 0 <= j < |matched| && 0 <= k < |clusterTitles[matched[j]]| &&
      line == TitleLine(clusterTitles[matched[j]][k], matched[j], Description(clusterKeywords[matched[j]]))
  }

  /** Only the matched clusters are mentioned in the matched reply: each title
      line carries a title of a matched cluster and that cluster's label. */
  lemma {:induction false} BlocksMentionOnlyMatched(clusterKeywords: seq<seq<string>>,
                                                    clusterTitles: seq<seq<string>>, matched: seq<nat>)
    requires ValidIds(matched, clusterKeywords, clusterTitles)
    ensures forall l :: 0 <= l < |Blocks(clusterKeywords, clusterTitles, matched)| ==>
      NamesMatchedTitle(Blocks(clusterKeywords, clusterTitles, matched)[l], clusterKeywords, clusterTitles, matched)
  {
    if matched != [] {
      var n := |matched| - 1;
      var front := matched[..n];
      BlocksMentionOnlyMatched(clusterKeywords, clusterTitles, front);
      var b := Blocks(clusterKeywords, clusterTitles, matched);
      var bf := Blocks(clusterKeywords, clusterTitles, front);
      var last := ClusterBlock(clusterKeywords, clusterTitles, matched[n]);
      assert b == bf + last;
      forall l | 0 <= l < |b|
        ensures NamesMatchedTitle(b[l], clusterKeywords, clusterTitles, matched)
      {
        if l < |bf| {
          assert NamesMatchedTitle(bf[l], clusterKeywords, clusterTitles, front);
          var j, k :| 0 <= j < |front| && 0 <= k < |clusterTitles[front[j]]| &&
            bf[l] == TitleLine(clusterTitles[front[j]][k], front[j], Description(clusterKeywords[front[j]]));
          assert front[j] == matched[j];
          assert b[l] == bf[l];
          assert b[l] == TitleLine(clusterTitles[matched[j]][k], matched[j], Description(clusterKeywords[matched[j]]));
        } else {
          var k := l - |bf|;
          assert b[l] == last[k];
          assert Take(clusterTitles[matched[n]], TitlesShown)[k] == clusterTitles[matched[n]][k];
          assert b[l] == TitleLine(clusterTitles[matched[n]][k], matched[n], Description(clusterKeywords[matched[n]]));
        }
      }
    }
  }

  /** With the default `top_n` at most three clusters are recommended, and
      the reply falls back exactly when no keyword of any cluster occurs in
      the lower-cased query. */
  lemma DefaultTopNReply(userInput: string, clusterKeywords: seq<seq<string>>, clusterTitles: seq<seq<string>>)
    requires |clusterKeywords| <= |clusterTitles|
    ensures |MatchedFor(userInput, clusterKeywords, DefaultTopN)| <= 3
    ensures FallbackIntro <= Reply(userInput, clusterKeywords, clusterTitles, DefaultTopN) <==>
      !exists i :: 0 <= i < |clusterKeywords| && MatchCount(clusterKeywords[i], Lower(userInput)) > 0
  {
    MatchedSpec(clusterKeywords, Lower(userInput), DefaultTopN);
    ReplyBranch(userInput, clusterKeywords, clusterTitles, DefaultTopN);
  }
}
