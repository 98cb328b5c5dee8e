# Podcast topic chatbot: a verified model of its NLP core

The chatbot groups podcast transcripts by topic and answers free-text
questions by recommending episodes from the clusters whose keywords occur
in the question. This project models the deterministic part of that core,
`spe_llm_chatbot_nlp.py`, in Dafny and proves properties of the model.

- **Text** (`text.dfy`) covers `clean_text`. The text is lower-cased, then every character other than an ASCII letter, digit or space is deleted.
- **Keywords** (`keywords.dfy`) covers `cluster_center.argsort()[-10:][::-1]`, modelled as a stable ascending argsort of the centre's weights. The function takes the last ten indices and reverses them, and the keyword loop appends one list per cluster.
- **TitleIndex** (`title_index.dfy`) covers the title grouping. The function starts with one empty list per cluster and appends each title to its document's cluster in place, using a local `array`.
- **Analysis** (`analysis.dfy`) covers `analyze_clusters`. `Analysis.CleanCorpus` is the cleaning of line 34, whose output would feed the vectoriser. `Analysis.AnalyzeClusters` chains the keyword loop and the title grouping. The vocabulary, the centres and the labels that TF-IDF and k-means produce are its parameters. `Analysis.DefaultNumClusters` is the default `num_clusters = 5` of line 33.
- **Scoring** (`scoring.dfy`) models the selection steps of `get_recommendation`:
  - Python's substring test `keyword in query`;
  - the match count;
  - the stable descending sort;
  - the slice `scores[:top_n]`, including negative `top_n`;
  - the filter `count > 0`.
- **Format** (`format.dfy`) covers `sep.join(...)` and the decimal rendering of `idx+1` in the f-strings.
- **Recommend** (`recommend.dfy`) covers `get_recommendation`. It has both the matched reply and the fallback reply, and keeps the source's loops as methods:
  - the scores loop;
  - the nested response loops;
  - the method that chains them.

  Each method is proved equal to a specification function. `Recommend.DefaultTopN` is the default `top_n = 3` of line 70, which the webhook relies on.

Centroid weights are modelled as integers. Only their order matters to the
keyword selection.

## Model

| member | source | states |
|---|---|---|
| Text.LowerChar | spe_llm_chatbot_nlp.py:30 | `str.lower` on one character: `A`-`Z` move to `a`-`z` by the fixed offset, any other character is unchanged, and the result is never an upper-case ASCII letter |
| Text.Lower | spe_llm_chatbot_nlp.py:72 | `user_input.lower()` keeps the length and lowers each character in place |
| Text.CleanTextIsNormal | spe_llm_chatbot_nlp.py:29-30 | a cleaned text holds only `a`-`z`, `0`-`9` and spaces |
| Text.CleanTextIdempotent | spe_llm_chatbot_nlp.py:29-30 | cleaning a cleaned text changes nothing |
| Text.CleanTextFixedPoints | spe_llm_chatbot_nlp.py:29-30 | a text is left unchanged by cleaning exactly when it already holds only lower-case letters, digits and spaces |
| Text.CleanTextAppend | spe_llm_chatbot_nlp.py:29-30 | cleaning works character by character: the cleaning of a concatenation is the concatenation of the cleanings |
| Text.CleanTextChar | spe_llm_chatbot_nlp.py:30 | one character survives, lowered, exactly when it is an ASCII letter, digit or space; otherwise it is deleted, not replaced |
| Text.CleanTextLength | spe_llm_chatbot_nlp.py:29-30 | cleaning never lengthens a text, and keeps its length exactly when every character is a letter, digit or space |
| Text.CleanTextJoinsAcrossPunctuation | spe_llm_chatbot_nlp.py:30 | punctuation is deleted, so the words around it join: `It's` becomes `its` |
| Text.KeepLength | spe_llm_chatbot_nlp.py:30 | the deletion of `[^A-Za-z0-9 ]+` never lengthens, and deletes nothing exactly when every character is kept |
| Text.KeepAppend | spe_llm_chatbot_nlp.py:30 | the deletion distributes over concatenation |
| Analysis.CleanCorpus | spe_llm_chatbot_nlp.py:34 | one cleaned transcript per transcript, each only lower-case letters, digits and spaces and no longer than its source |
| Analysis.AnalyzeClusters | spe_llm_chatbot_nlp.py:45-57 | `K` keyword lists, each the top terms of its centre and `min(10, vocabulary size)` long; `K` title lists, each the members of its cluster in corpus order; together the title lists hold every title exactly as often as the corpus does |
| Keywords.ArgSortIsSortedPermutation | spe_llm_chatbot_nlp.py:51 | the ascending argsort lists every vocabulary position exactly once, ordered by weight |
| Keywords.TopIndicesSpec | spe_llm_chatbot_nlp.py:51 | `argsort()[-10:][::-1]` selects `min(10, V)` distinct positions, weights non-increasing, equal weights with the larger position first; no unselected position outranks a selected one |
| Keywords.TopIndices | spe_llm_chatbot_nlp.py:51 | every selected index is a vocabulary position |
| Keywords.TopTermsSpec | spe_llm_chatbot_nlp.py:50-51 | the keyword list has `min(10, V)` entries, entry `k` is the term at the `k`-th selected position, and the keywords are distinct when the vocabulary is |
| Keywords.ExtractKeywords | spe_llm_chatbot_nlp.py:46-52 | the loop yields one list per cluster, list `i` being the top terms of centre `i` |
| TitleIndex.GroupTitles | spe_llm_chatbot_nlp.py:47-55 | starting from `K` empty lists and appending in place, list `c` ends as the titles of the documents labelled `c`, in corpus order |
| TitleIndex.MembersArePositions | spe_llm_chatbot_nlp.py:54-55 | a cluster's list is exactly the titles at the positions labelled with it |
| TitleIndex.PositionsSpec | spe_llm_chatbot_nlp.py:54-55 | those positions are strictly ascending, so nothing is reordered or merged; a position is listed exactly when its label is `c` |
| TitleIndex.TitleInOwnCluster | spe_llm_chatbot_nlp.py:55 | every document's title is in its own cluster's list |
| TitleIndex.TitleIndexIsPartition | spe_llm_chatbot_nlp.py:54-55 | the lists together are a permutation of the corpus titles, duplicates included, and their lengths sum to the number of documents |
| Scoring.OccursIffSlice | spe_llm_chatbot_nlp.py:75 | `word in user_input_lower` holds exactly when the word appears at some offset of the query |
| Scoring.SubstringNotWord | spe_llm_chatbot_nlp.py:75 | the test is containment, not a word match: `cat` is found in `concatenate` |
| Scoring.MatchCountBounds | spe_llm_chatbot_nlp.py:75 | the count is at most the number of keywords; it is 0 exactly when no keyword occurs and maximal exactly when all occur |
| Scoring.MatchCountAppend | spe_llm_chatbot_nlp.py:75 | the count is additive over the keyword list, so a repeated keyword counts each time |
| Scoring.SortByCount | spe_llm_chatbot_nlp.py:78 | sorting keeps the length and is a permutation of the entries |
| Scoring.SortByCountSortedDesc | spe_llm_chatbot_nlp.py:78 | the sorted entries have non-increasing counts |
| Scoring.SortByCountStable | spe_llm_chatbot_nlp.py:78 | the sort is stable: for every count, the entries with that count keep their input order |
| Scoring.SortByCountRanked | spe_llm_chatbot_nlp.py:78 | entries listed by ascending cluster come out in strict ranking order: higher count first, then lower cluster id |
| Scoring.RankingSpec | spe_llm_chatbot_nlp.py:73-78 | the ranked scores are a permutation of one `(i, count)` entry per cluster, in strict ranking order |
| Scoring.PyPrefixOf | spe_llm_chatbot_nlp.py:79 | `scores[:top_n]` is a prefix, of length `min(top_n, len)` for `top_n >= 0` |
| Scoring.PyPrefixNegative | spe_llm_chatbot_nlp.py:79 | a negative `top_n` drops that many entries from the end |
| Scoring.KeepPositiveMembers | spe_llm_chatbot_nlp.py:79 | the filter `count > 0` keeps exactly the positive entries |
| Scoring.PositiveRanked | spe_llm_chatbot_nlp.py:79 | the filtered ids have positive counts and keep the ranking order |
| Scoring.MatchedSpec | spe_llm_chatbot_nlp.py:78-79 | `matched_clusters` has at most `top_n` entries (for `top_n >= 0`). Each entry is a cluster id with a positive count. Entries are ordered by count, ties by ascending id, so none repeats |
| Scoring.MatchedNonEmptyIff | spe_llm_chatbot_nlp.py:79-81 | for `top_n >= 0`, some cluster is matched exactly when `top_n >= 1` and some cluster has a positive count |
| Scoring.MatchedAllPositive | spe_llm_chatbot_nlp.py:79 | when `top_n` covers all clusters, a cluster is matched exactly when its count is positive |
| Scoring.CutBelow | spe_llm_chatbot_nlp.py:79 | if the cut leaves out a positive entry, then it kept `top_n` entries, all ranked above that entry |
| Scoring.MatchedIsTopN | spe_llm_chatbot_nlp.py:78-79 | a positive cluster is left out only when `top_n` clusters were matched, each ranked above it |
| Format.JoinLength | spe_llm_chatbot_nlp.py:89 | the length of a join of `n >= 1` parts is the parts' total length plus `n - 1` separators |
| Format.JoinAppend | spe_llm_chatbot_nlp.py:92-93 | joining two non-empty lists is joining each, with one separator between the results |
| Format.NatToString | spe_llm_chatbot_nlp.py:88 | `{idx+1}` renders as a non-empty string of decimal digits with no leading zero |
| Format.NatToStringRoundTrip | spe_llm_chatbot_nlp.py:88 | reading the rendered number back gives the number |
| Format.NatToStringInjective | spe_llm_chatbot_nlp.py:88 | different clusters get different labels |
| Recommend.Take | spe_llm_chatbot_nlp.py:85-86 | `s[:5]` is a prefix of length `min(5, len)` |
| Recommend.ClusterSummary | spe_llm_chatbot_nlp.py:91 | the fallback summary has one line per cluster |
| Recommend.MatchedForValid | spe_llm_chatbot_nlp.py:84-86 | every matched id indexes both `cluster_keywords` and `cluster_titles` |
| Recommend.ScoreClusters | spe_llm_chatbot_nlp.py:73-76 | the loop yields one entry per cluster, entry `i` being `(i, match count of cluster i)` |
| Recommend.BuildResponse | spe_llm_chatbot_nlp.py:82-88 | the nested loops build the two header lines followed by the title lines of every matched cluster |
| Recommend.GetRecommendation | spe_llm_chatbot_nlp.py:70-93 | the reply is the specified reply. For `top_n >= 0` it opens with the fallback sentence exactly when `top_n` is 0 or no keyword of any cluster occurs in the lower-cased query |
| Recommend.ReplyBranch | spe_llm_chatbot_nlp.py:81-93 | the reply opens with the fallback sentence exactly when no cluster is matched, which for `top_n >= 0` means `top_n` is 0 or no keyword occurs |
| Recommend.MatchedIntroIsNotFallback | spe_llm_chatbot_nlp.py:82 | a reply that opens with the matched header cannot open with the fallback sentence |
| Recommend.MatchedReplyOpens | spe_llm_chatbot_nlp.py:82-89 | the matched reply opens with the matched header |
| Recommend.FallbackOpens | spe_llm_chatbot_nlp.py:92-93 | the fallback reply opens with the fallback sentence |
| Recommend.BlocksLength | spe_llm_chatbot_nlp.py:84-88 | each matched cluster contributes `min(5, its title count)` lines |
| Recommend.BlocksLineAt | spe_llm_chatbot_nlp.py:84-88 | line `k` of the `j`-th matched cluster's block is `- {title} (Cluster {idx+1}: {desc})` for that cluster's `k`-th title, placed after the blocks of the clusters before it |
| Recommend.BlocksLayout | spe_llm_chatbot_nlp.py:84-88 | the title lines are laid out cluster after cluster, in matched order, at most five per cluster and in title order |
| Recommend.TitleCountMonotone | spe_llm_chatbot_nlp.py:84-88 | the blocks of an earlier prefix of the matched clusters are no longer than the whole |
| Recommend.BlocksMentionOnlyMatched | spe_llm_chatbot_nlp.py:84-88 | every title line names a title of a matched cluster and carries that cluster's label and description |
| Recommend.MatchedReplyShape | spe_llm_chatbot_nlp.py:82-89 | a matched reply is its lines joined by newlines: the two header lines, then the title lines |
| Recommend.DefaultTopNReply | spe_llm_chatbot_nlp.py:70 | with the default `top_n = 3` at most three clusters are recommended, and the reply falls back exactly when no keyword of any cluster occurs in the lower-cased query |
| Recommend.FallbackReplyShape | spe_llm_chatbot_nlp.py:91-93 | with at least one cluster, the fallback reply is the two fixed lines and then one summary line per cluster, joined by newlines; it names no title |

## Left out

- TF-IDF vectorisation and the English stop-word list (lines 35-36) are external library code. Its output, the vocabulary, is a parameter of `Analysis.AnalyzeClusters`.
- The k-means fit (lines 38-41) is external library code, so the labels and centres are parameters. The model requires each label to be below the cluster count, which k-means guarantees.
- The silhouette score and its `print` (lines 42-43) are informational output and are not modelled.
  - `silhouette_score` raises `ValueError` unless the labels take between 2 and N-1 distinct values. On such inputs `analyze_clusters` fails, while `Analysis.AnalyzeClusters` returns its lists.
- Loading from Google Sheets (lines 17-26) is network I/O and is not modelled. Titles and transcripts are parameters.
- The word cloud (lines 60-67) and the local LLM helpers (lines 96 onwards) are plotting and foreign inference, and are not modelled.
- `main.py` is not part of this model. It runs the analysis once at import time (main.py:11) and calls `get_recommendation` from the LINE webhook handler (main.py:40). The webhook's signature check and HTTP reply are transport code.
- Keywords.ArgSort: numpy's default `argsort` is not stable, so the code leaves the order of equal centroid weights unspecified. The model fixes it to index order in the ascending sort, so after `[::-1]` the larger vocabulary position comes first among equal weights.
  - A stable descending sort by weight would list equal weights in vocabulary order.
  - The code reverses an ascending argsort instead, so with a stable argsort the larger vocabulary position comes first, and that is the order the model proves.
- Text.LowerChar: Python's `str.lower` is Unicode-aware. The model lowers only `A`-`Z` and leaves every other character unchanged.
  - A few non-ASCII characters lower to ASCII letters (the Kelvin sign to `k`, say). `clean_text` would keep those and the model deletes them.
  - Case folding of the query in `Text.Lower` differs in the same way.
- Recommend.GetRecommendation: requires `len(cluster_keywords) <= len(cluster_titles)`.
  - Python raises `IndexError` when a matched id has no title list. The model does not cover that error path.
  - The lists that `analyze_clusters` builds always have equal length, as `Analysis.AnalyzeClusters` states.
- Keywords.ExtractKeywords: requires at least `num_clusters` centres, each as long as the vocabulary, which is what a fitted k-means model provides.
  - With fewer centres, Python would raise `IndexError`, and the model does not cover that error path.
