/** `analyze_clusters`: the per-cluster keyword lists and title lists built
    from a fitted clustering. The TF-IDF vectoriser and k-means are outside
    the model; their results (the vocabulary, the cluster centres and the
    document labels) are parameters. */
module Analysis {
  import opened Text
  import opened Format
  import opened Keywords
  import opened TitleIndex

  /** `num_clusters` when the caller gives none (line 33). */
  const DefaultNumClusters: nat := 5

  /** Line 34: every transcript cleaned before vectorising. Each cleaned
      transcript is lower-case letters, digits and spaces, and no longer
      than the transcript it comes from. */
  function CleanCorpus(texts: seq<string>): (cleaned: seq<string>)
    ensures |cleaned| == |texts|
    ensures forall i :: 0 <= i < |texts| ==> AllNormal(cleaned[i]) && |cleaned[i]| <= |texts[i]|
  {
    var cleaned := seq(|texts|, i requires 0 <= i < |texts| => CleanText(texts[i]));
    assert forall i :: 0 <= i < |texts| ==> AllNormal(cleaned[i]) && |cleaned[i]| <= |texts[i]| by {
      forall i | 0 <= i < |texts|
        ensures AllNormal(cleaned[i]) && |cleaned[i]| <= |texts[i]|
      {
        CleanTextIsNormal(texts[i]);
        CleanTextLength(texts[i]);
      }
    }
    cleaned
  }

  /** Lines 45-57: one keyword list per cluster centre and one title list
      per cluster. The title lists partition the corpus, and there are as
      many title lists as keyword lists, which is what `get_recommendation`
      needs of its argument. */
  method AnalyzeClusters(titles: seq<string>, terms: seq<string>, centers: seq<seq<int>>, labels: seq<nat>,
                         numClusters: nat)
    returns (keywords: seq<seq<string>>, clusterTitles: seq<seq<string>>)
    requires numClusters <= |centers|
    requires forall i :: 0 <= i < numClusters ==> |centers[i]| == |terms|
    requires |labels| <= |titles|
    requires LabelsInRange(labels, numClusters)
    ensures |keywords| == numClusters && |clusterTitles| == numClusters
    ensures forall i :: 0 <= i < numClusters ==>
      keywords[i] == TopTerms(centers[i], terms) &&
      |keywords[i]| == if |terms| < TopKeywords then |terms| else TopKeywords
    ensures forall c :: 0 <= c < numClusters ==> clusterTitles[c] == Members(titles, labels, c)
    ensures multiset(Concat(clusterTitles)) == multiset(titles[..|labels|])
    ensures SumOfLengths(clusterTitles) == |labels|
  {
    keywords := ExtractKeywords(centers, terms, numClusters);
    forall i | 0 <= i < numClusters
      ensures |keywords[i]| == if |terms| < TopKeywords then |terms| else TopKeywords
    {
      TopTermsSpec(centers[i], terms);
    }
    clusterTitles := GroupTitles(titles, labels, numClusters);
    assert clusterTitles == Groups(titles, labels, numClusters);
    TitleIndexIsPartition(titles, labels, numClusters);
  }
}
