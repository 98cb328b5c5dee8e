/** The document index: the titles of each cluster's documents, collected
    by appending `titles[idx]` to the list of cluster `labels[idx]`. */
module TitleIndex {
  import opened Format

  /** Every document's label names one of the `numClusters` clusters, as the
      clustering guarantees. */
  predicate LabelsInRange(labels: seq<nat>, numClusters: nat)
  {
    forall idx :: 0 <= idx < |labels| ==> labels[idx] < numClusters
  }

  /** The titles of the documents labelled `c`, in corpus order. */
  function Members(titles: seq<string>, labels: seq<nat>, c: nat): seq<string>
    requires |labels| <= |titles|
  {
    if labels == [] then []
    else
      var n := |labels| - 1;
      Members(titles, labels[..n], c) + (if labels[n] == c then [titles[n]] else [])
  }

  /** The positions of the documents labelled `c`, in corpus order. */
  function Positions(labels: seq<nat>, c: nat): (ps: seq<nat>)
    ensures forall k :: 0 <= k < |ps| ==> ps[k] < |labels|
  {
    if labels == [] then []
    else
      var n := |labels| - 1;
      Positions(labels[..n], c) + (if labels[n] == c then [n] else [])
  }

  /** The index that `GroupTitles` builds: one list per cluster. */
  function Groups(titles: seq<string>, labels: seq<nat>, numClusters: nat): (gs: seq<seq<string>>)
    requires |labels| <= |titles|
    ensures |gs| == numClusters
  {
    seq(numClusters, c requires 0 <= c < numClusters => Members(titles, labels, c))
  }

  function Concat<T>(gs: seq<seq<T>>): seq<T>
  {
    if gs == [] then [] else gs[0] + Concat(gs[1..])
  }

  /** Lines 47 and 54-55 of `analyze_clusters`: `numClusters` empty lists, then
      each title appended, in place, to the list of its document's label. */
  method GroupTitles(titles: seq<string>, labels: seq<nat>, numClusters: nat)
    returns (clusterTitles: seq<seq<string>>)
    requires |labels| <= |titles|
    requires LabelsInRange(labels, numClusters)
    ensures |clusterTitles| == numClusters
    ensures forall c :: 0 <= c < numClusters ==> clusterTitles[c] == Members(titles, labels, c)
  {
    var lists := new seq<string>[numClusters](_ => []);
    for idx := 0 to |labels|
      invariant forall c :: 0 <= c < numClusters ==> lists[c] == Members(titles, labels[..idx], c)
    {
      assert labels[..idx + 1][..idx] == labels[..idx];
      var c := labels[idx];
      lists[c] := lists[c] + [titles[idx]];
    }
    assert labels[..|labels|] == labels;
    clusterTitles := lists[..];
  }

  /** A cluster's list holds exactly the titles at the positions labelled
      with it, in ascending corpus order: nothing reordered, nothing merged. */
  lemma {:induction false} MembersArePositions(titles: seq<string>, labels: seq<nat>, c: nat)
    requires |labels| <= |titles|
    ensures |Members(titles, labels, c)| == |Positions(labels, c)|
    ensures forall k :: 0 <= k < |Positions(labels, c)| ==>
      Members(titles, labels, c)[k] == titles[Positions(labels, c)[k]]
  {
    if labels != [] {
      MembersArePositions(titles, labels[..|labels| - 1], c);
    }
  }

  /** The positions of cluster `c` are strictly ascending and are exactly
      the documents labelled `c`. */
  lemma {:induction false} PositionsSpec(labels: seq<nat>, c: nat)
    ensures forall p, q :: 0 <= p < q < |Positions(labels, c)| ==>
      Positions(labels, c)[p] < Positions(labels, c)[q]
    ensures forall i :: 0 <= i < |labels| ==> (i in Positions(labels, c) <==> labels[i] == c)
  {
    if labels != [] {
      var n := |labels| - 1;
      PositionsSpec(labels[..n], c);
      assert forall i :: 0 <= i < n ==> labels[..n][i] == labels[i];
    }
  }

  /** Every document's title is in the list of its own cluster. */
  lemma TitleInOwnCluster(titles: seq<string>, labels: seq<nat>, idx: nat)
    requires |labels| <= |titles| && idx < |labels|
    ensures titles[idx] in Members(titles, labels, labels[idx])
  {
    var c := labels[idx];
    PositionsSpec(labels, c);
    MembersArePositions(titles, labels, c);
    var k :| 0 <= k < |Positions(labels, c)| && Positions(labels, c)[k] == idx;
    assert Members(titles, labels, c)[k] == titles[idx];
  }

  lemma {:induction false} ConcatAppendAt<T>(gs: seq<seq<T>>, c: nat, x: T)
    requires c < |gs|
    ensures multiset(Concat(gs[c := gs[c] + [x]])) == multiset(Concat(gs)) + multiset{x}
  {
    var hs := gs[c := gs[c] + [x]];
    if c == 0 {
      assert hs[1..] == gs[1..];
    } else {
      assert hs[1..] == gs[1..][c - 1 := gs[c] + [x]];
      ConcatAppendAt(gs[1..], c - 1, x);
    }
  }

  lemma {:induction false} ConcatLength<T>(gs: seq<seq<T>>)
    ensures |Concat(gs)| == SumOfLengths(gs)
  {
    if gs != [] {
      ConcatLength(gs[1..]);
    }
  }

  lemma {:induction false} GroupsPartition(titles: seq<string>, labels: seq<nat>, numClusters: nat)
    requires |labels| <= |titles|
    requires LabelsInRange(labels, numClusters)
    ensures multiset(Concat(Groups(titles, labels, numClusters))) == multiset(titles[..|labels|])
  {
    if labels == [] {
      var gs := Groups(titles, labels, numClusters);
      forall c | 0 <= c < numClusters ensures gs[c] == [] { }
      EmptyConcat(gs);
    } else {
      var n := |labels| - 1;
      assert titles[..|labels|] == titles[..n] + [titles[n]];
      var l := labels[n];
      var prev := Groups(titles, labels[..n], numClusters);
      GroupsPartition(titles, labels[..n], numClusters);
      var gs := Groups(titles, labels, numClusters);
      forall c | 0 <= c < numClusters
        ensures gs[c] == prev[l := prev[l] + [titles[n]]][c]
      {
        assert labels[..n] == labels[..|labels| - 1];
      }
      assert gs == prev[l := prev[l] + [titles[n]]];
      ConcatAppendAt(prev, l, titles[n]);
    }
  }

  lemma {:induction false} EmptyConcat<T>(gs: seq<seq<T>>)
    requires forall c :: 0 <= c < |gs| ==> gs[c] == []
    ensures Concat(gs) == []
  {
    if gs != [] {
      EmptyConcat(gs[1..]);
    }
  }

  /** The index is a hard partition of the corpus titles: together the lists
      hold every title exactly as often as the corpus does, so their lengths
      add up to the number of documents. */
  lemma TitleIndexIsPartition(titles: seq<string>, labels: seq<nat>, numClusters: nat)
    requires |labels| <= |titles|
    requires LabelsInRange(labels, numClusters)
    ensures multiset(Concat(Groups(titles, labels, numClusters))) == multiset(titles[..|labels|])
    ensures SumOfLengths(Groups(titles, labels, numClusters)) == |labels|
  {
    var gs := Groups(titles, labels, numClusters);
    GroupsPartition(titles, labels, numClusters);
    ConcatLength(gs);
    assert |multiset(Concat(gs))| == |Concat(gs)|;
  }
}
