# keyword-extraction-rs core, modelled in Dafny

This project models four sequential pieces of the keyword-extraction engine and proves properties of the model:

- **The windowed co-occurrence matrix** (`src/co_occurrence.rs`, module `CoOccurrenceMatrix`).
  - Every vocabulary word gets a label.
  - Every document is split on whitespace.
  - Every vocabulary token counts every other vocabulary token within `window_size` positions of it.
  - The counts are divided by the largest count.
  - Queries for unknown words answer `None`.
- **TextRank** (`src/text_rank/text_rank_logic.rs`, module `TextRank` for the graph and the word rank, `PhraseScore` for phrase scores).
  - A forward-window word graph with no self-loops.
  - Outgoing weight sums.
  - The damped update `score_word`.
  - The tolerance test.
  - The word-rank keys.
  - Phrase scores: the mean over all of a phrase's words.
- **Deterministic ranking** (`src/common/functions.rs`, module `Ranking`).
  - Entries are sorted by score, highest first, with ties broken by ascending word.
  - The first `n` are returned, as words or as `(word, score)` pairs.
- **Phrase chunking** (`create_phrase` and the fold of `basic_phrase_split` in `src/tokenizer.rs`, module `PhraseSplit`).
  - A stopword closes the current phrase.
  - Punctuation and empty tokens are skipped.
  - Other tokens are appended with a single space.
  - An optional length cap emits the phrase as soon as it is long enough.

Supporting modules:

- `Text` models `str::split_whitespace`. It uses the Unicode White_Space class that `char::is_whitespace` tests, and joins words with single spaces.
- `Indexing` models the maps from items to their positions that the source collects into hash maps, and enumerations of hash-map keys.
- `Sums` models finite sums over key sets and sequences.
- `Wrappers` holds `Option`.

How Rust concepts map into Dafny:

- Scores are `real`. Counts are `nat`.
- A `HashMap`'s iteration order is not under the program's control.
  - Where it shapes a result, it becomes an explicit parameter: an enumeration `order` or `nodes` of the key set.
  - Where the order does not matter (sums over a map), the model sums over the key set.
  - `SortRankedMapDeterministic` and `RankedDeterministic` prove that the ranking does not depend on this order.
- The conservation lemmas rest on the classical PageRank fact that, on a symmetric graph, each round keeps the total score at the number of nodes.
  - `UpdateConservesTotal` states it for one round.
  - `CreateWordRank` states it for the returned rank.
  - This is what the TextRank update is built on.

## Model

| member | source | states |
|---|---|---|
| Indexing.Indexes | src/co_occurrence.rs:37-47 | the label map holds exactly the sequence's items, each mapped to the last position holding it (a later duplicate overwrites an earlier one) |
| Indexing.IndexesOfDistinct | src/co_occurrence.rs:37-47 | on a duplicate-free sequence the label of `s[k]` is `k` |
| Indexing.EnumerationSize | src/text_rank/text_rank_logic.rs:208-209 | a duplicate-free listing of a key set has as many elements as the set, so `n` is the number of graph nodes |
| Text.SplitWhitespace | src/text_rank/text_rank_logic.rs:24 | every piece `split_whitespace` yields is non-empty and holds no whitespace |
| Text.SplitSeparator | src/co_occurrence.rs:59 | splitting at a whitespace character splits the text into the words of either side |
| Text.SplitWord | src/tokenizer.rs:64 | a single word splits into itself |
| Text.SplitAppendWord | src/tokenizer.rs:60-64 | appending a space and a word to a phrase adds exactly that word to its whitespace split |
| Text.SplitJoin | src/tokenizer.rs:59-65 | words joined by single spaces split back into the same words |
| CoOccurrenceMatrix.WindowRange | src/co_occurrence.rs:31-35 | the range starts at or before `index`, with no underflow; it holds exactly the positions within `window_size` of `index` inside the sequence, and for `index < len` it lies in `[0, len)` and contains `index` |
| CoOccurrenceMatrix.CountWindow | src/co_occurrence.rs:63-82 | scanning one token's window adds, to every cell, the number of other vocabulary positions in range with those labels, keeps the matrix square, and keeps `max` the largest cell |
| CoOccurrenceMatrix.RowHitsUnknownCentre | src/co_occurrence.rs:63 | a centre token outside the vocabulary scans no window and adds nothing |
| CoOccurrenceMatrix.CountDocument | src/co_occurrence.rs:59-83 | one document adds, to each cell `(a, b)`, the number of ordered position pairs `i != j`, at distance at most `w`, with labels `a` at `i` and `b` at `j` |
| CoOccurrenceMatrix.CountCooccurrences | src/co_occurrence.rs:55-84 | the accumulated matrix, starting from zeros, is the corpus-wide pair count in every cell, and `max` is its largest cell (0 when all cells are 0) |
| CoOccurrenceMatrix.CountMatrix | src/co_occurrence.rs:55-84 | the raw count matrix is square, of the vocabulary's length, and symmetric, and all zero when the window size is 0 |
| CoOccurrenceMatrix.CorpusCountSymmetric | src/co_occurrence.rs:58-83 | `count[a][b] == count[b][a]`: every pair is counted from both ends |
| CoOccurrenceMatrix.WindowZeroCountsNothing | src/co_occurrence.rs:65-74 | with window size 0 the only position in range is the centre, which is skipped, so every count is 0 |
| CoOccurrenceMatrix.UnknownTokensCountNothing | src/co_occurrence.rs:63 | a document without vocabulary words adds nothing |
| CoOccurrenceMatrix.IncrementKeepsMax | src/co_occurrence.rs:76-81 | incrementing a cell and comparing it with the running maximum keeps the maximum the largest cell |
| CoOccurrenceMatrix.Normalise | src/co_occurrence.rs:92-96 | the normalised matrix has the raw matrix's shape, and each cell times `max` is the raw count |
| CoOccurrenceMatrix.NormaliseByMax | src/co_occurrence.rs:93-96 | dividing by the largest count puts every cell in `[0, 1]`, and some cell is exactly 1 |
| CoOccurrenceMatrix.NormaliseSymmetric | src/co_occurrence.rs:93-96 | normalising keeps the matrix symmetric |
| CoOccurrenceMatrix.New | src/co_occurrence.rs:103-112 | the matrix is the normalised corpus count, stored with the vocabulary and its labels; it is symmetric and in `[0, 1]`; for an empty vocabulary it is the empty matrix; otherwise it has a cell equal to 1, and it is `None` exactly when no pair co-occurs |
| CoOccurrenceMatrix.Label | src/co_occurrence.rs:115-117 | `get_label` is `Some` exactly for vocabulary words, holding the word's last position |
| CoOccurrenceMatrix.Word | src/co_occurrence.rs:120-122 | `get_word(k)` is `words[k]` for `k < len`, `None` otherwise |
| CoOccurrenceMatrix.LabelWordRoundTrip | src/co_occurrence.rs:115-122 | looking a known word's label back up gives the word |
| CoOccurrenceMatrix.LabelOfDistinctVocabulary | src/co_occurrence.rs:115-122 | on a duplicate-free vocabulary `get_label(words[k]) == Some(k)` and `get_word(k) == Some(words[k])` |
| CoOccurrenceMatrix.Relation | src/co_occurrence.rs:190-200 | `None` if either word is unknown, else the matrix cell at their labels |
| CoOccurrenceMatrix.RelationSymmetric | src/co_occurrence.rs:190-200 | on a symmetric matrix `relation(a, b) == relation(b, a)` |
| CoOccurrenceMatrix.MatrixRow | src/co_occurrence.rs:181-187 | `None` exactly for unknown words, else a row of vocabulary length |
| CoOccurrenceMatrix.MatrixRowHoldsRelations | src/co_occurrence.rs:181-200 | entry `label(other)` of a word's row is its relation to `other` |
| CoOccurrenceMatrix.PositiveIndices | src/co_occurrence.rs:163-175 | the positions of the positive cells of a row, increasing, and all of them |
| CoOccurrenceMatrix.Relations | src/co_occurrence.rs:135-178 | `None` for an unknown word; otherwise exactly the `(words[i], v)` with `v > 0` of the word's row, in increasing label order |
| TextRank.NodeHasEdge | src/text_rank/text_rank_logic.rs:144-151 | in a graph whose nodes all have edges of weight at least 1 (what `add_edge` builds) a word is a node exactly when some edge with positive weight leaves it |
| TextRank.AddEdge | src/text_rank/text_rank_logic.rs:144-151 | `add_edge` adds 1 to the weight of `word1 -> word2` and changes no other weight; the nodes gain `word1`; every weight stays at least 1 |
| TextRank.AddPair | src/text_rank/text_rank_logic.rs:169-172 | a pair adds 1 in both directions, or nothing when the two words are equal |
| TextRank.AddWindowEdges | src/text_rank/text_rank_logic.rs:162-172 | the pairs of position `i` add its forward-window pair counts to the weights |
| TextRank.CreateGraph | src/text_rank/text_rank_logic.rs:153-175 | `graph[a][b]` is the number of position pairs `i < j <= i + w` holding `{a, b}` with `a != b`; weights are at least 1; the graph is symmetric, has no self-loop, and its nodes occur in the text; window size 0 gives an empty graph |
| TextRank.GraphShape | src/text_rank/text_rank_logic.rs:159-172 | a graph weighted by pair counts is symmetric, loop-free, and has nodes only from the text |
| TextRank.PairCountSymmetric | src/text_rank/text_rank_logic.rs:159-172 | the pair count of `(x, y)` equals that of `(y, x)` |
| TextRank.NoSelfPairs | src/text_rank/text_rank_logic.rs:166 | no pair joins a word with itself |
| TextRank.SymmetricClosed | src/text_rank/text_rank_logic.rs:169-172 | in a symmetric well-formed graph every neighbour is itself a node |
| TextRank.SumWeights | src/text_rank/text_rank_logic.rs:196 | `edges.values().sum()` is the sum of the weights over the neighbour set, whatever the visiting order |
| TextRank.OutSumAtLeastOne | src/text_rank/text_rank_logic.rs:196 | every node's outgoing weight sum is at least 1, so dividing by it is safe |
| TextRank.GetOutgoingWeightSum | src/text_rank/text_rank_logic.rs:177-200 | one sum per node and no other key, each the node's outgoing weight total, and at least 1 when every node has an edge of weight at least 1 (as in every graph `create_graph` builds) |
| TextRank.OutSumsAtLeastOne | src/text_rank/text_rank_logic.rs:177-200 | every outgoing sum of a well-formed graph is at least 1 |
| TextRank.ScoreWord | src/text_rank/text_rank_logic.rs:33-50 | `(1 - d) + d * sum over neighbours of weight / outsum(neighbour) * prev(neighbour)`; at least `1 - d` for nonnegative inputs; exactly `1 - d` with no neighbours |
| TextRank.ContributionsNonNegative | src/text_rank/text_rank_logic.rs:40-47 | with nonnegative previous scores and positive out-sums the neighbour sum is nonnegative |
| TextRank.GetScores | src/text_rank/text_rank_logic.rs:95-109 | one new score per node, in node order, each the damped update of that node |
| TextRank.InWeightIsOutWeight | src/text_rank/text_rank_logic.rs:169-172 | in a symmetric graph the weight arriving at a node equals its outgoing weight sum |
| TextRank.UpdateConservesTotal | src/text_rank/text_rank_logic.rs:214-222 | on a symmetric graph one round maps a total `T` over `n` nodes to `(1 - d) * n + d * T` |
| TextRank.CheckTolerance | src/text_rank/text_rank_logic.rs:121-127 | true exactly when every zipped pair differs by less than `tol` |
| TextRank.ToleranceOfUnchanged | src/text_rank/text_rank_logic.rs:121-127 | unchanged scores pass the test exactly when there are none or `tol > 0` |
| TextRank.ToleranceSymmetric | src/text_rank/text_rank_logic.rs:121-127 | swapping the score lists does not change the outcome |
| TextRank.CollectRank | src/text_rank/text_rank_logic.rs:237-243 | the rank has exactly the listed nodes as keys, each with the score at its index |
| TextRank.CollectRankAligned | src/text_rank/text_rank_logic.rs:208-243 | node `k` of a duplicate-free listing gets `scores[k]` |
| TextRank.InitialScores | src/text_rank/text_rank_logic.rs:211 | `n` scores of 1.0, summing to `n` |
| TextRank.IterateScores | src/text_rank/text_rank_logic.rs:214-227 | the rounds keep one score per node and, on a symmetric graph, a total of `n` |
| TextRank.RoundKeepsTotal | src/text_rank/text_rank_logic.rs:214-227 | a round starting from total `n` on `n` nodes of a symmetric graph ends at total `n` |
| TextRank.RankCoversNodes | src/text_rank/text_rank_logic.rs:237-243 | the collected rank's keys are the graph's nodes, and its values sum to the score vector's total |
| TextRank.WordRank | src/text_rank/text_rank_logic.rs:229-243 | the word rank's keys are exactly the nodes, so a word with no edge gets no score |
| TextRank.RankWithSums | src/text_rank/text_rank_logic.rs:210-243 | the rank has the graph's nodes as keys, and on a symmetric graph the scores sum to the number of nodes |
| TextRank.CreateWordRank | src/text_rank/text_rank_logic.rs:203-244 | the word rank's keys are exactly the graph's nodes; on a symmetric graph the scores sum to the number of nodes |
| PhraseScore.ScoreSumAppend | src/text_rank/text_rank_logic.rs:25-28 | the score sum of a concatenation is the sum of the parts' sums |
| PhraseScore.ScoreSumBounds | src/text_rank/text_rank_logic.rs:25-28 | word scores in `[0, hi]` sum to between 0 and `hi` per word |
| PhraseScore.ScoreSumUniform | src/text_rank/text_rank_logic.rs:25-28 | words all scoring `c` sum to `c` per word |
| PhraseScore.ScoreSumUnscored | src/text_rank/text_rank_logic.rs:27 | words with no score add nothing |
| PhraseScore.ScorePhrase | src/text_rank/text_rank_logic.rs:23-31 | the score times the phrase's whitespace word count is the sum of its scored words' ranks |
| PhraseScore.PhraseScoreBounds | src/text_rank/text_rank_logic.rs:23-31 | with word scores in `[0, hi]`, a phrase scores in `[0, hi]` |
| PhraseScore.PhraseScoreUniform | src/text_rank/text_rank_logic.rs:23-31 | a phrase whose words all score `c` scores `c` |
| PhraseScore.PhraseScoreDilution | src/text_rank/text_rank_logic.rs:30 | appending an unscored word keeps the sum but adds one to the denominator |
| PhraseScore.QuickFox | src/text_rank/text_rank_logic.rs:23-31 | "quick fox" with scores 0.6 and 0.4 scores 0.5 |
| PhraseScore.QuickFoxUnscored | src/text_rank/text_rank_logic.rs:23-31 | "quick fox" with only "quick" scored, at 1, scores 0.5: the unscored word still counts |
| PhraseScore.RankPhrases | src/text_rank/text_rank_logic.rs:246-265 | the phrase rank's keys are exactly the phrases, each with its phrase score |
| PhraseScore.RankPhrasesSize | src/text_rank/text_rank_logic.rs:246-265 | distinct phrases give one key each |
| Ranking.CompareStringsEqual | src/common/functions.rs:35 | string comparison answers `Equal` exactly on equal strings |
| Ranking.CompareStringsFlip | src/common/functions.rs:35 | `a < b` exactly when `b > a` |
| Ranking.CompareStringsTransitive | src/common/functions.rs:35 | string order is transitive |
| Ranking.EntriesEqualOnlyOnSameWord | src/common/functions.rs:31-39 | the comparator answers `Equal` only on identical entries |
| Ranking.EntriesFlip | src/common/functions.rs:31-39 | `a` precedes `b` exactly when comparing `b` with `a` answers `Greater` |
| Ranking.EntriesTotal | src/common/functions.rs:31-39 | of two entries with different words one precedes the other |
| Ranking.EntriesTransitive | src/common/functions.rs:31-39 | the comparator's order is transitive |
| Ranking.EntriesIrreflexive | src/common/functions.rs:31-39 | no entry precedes itself |
| Ranking.SortedNeighbours | src/common/functions.rs:31-39 | in sorted order scores never increase, and equal scores have strictly ascending words |
| Ranking.Insert | src/common/functions.rs:31-40 | inserting into a sorted listing keeps it sorted and adds exactly that entry |
| Ranking.SortEntries | src/common/functions.rs:29-41 | the sort output is sorted and a permutation of its input |
| Ranking.EntriesInOrder | src/common/functions.rs:30 | `map.iter().collect()` lists every entry of the map once |
| Ranking.SortRankedMap | src/common/functions.rs:58-68 | `sort_ranked_map` lists exactly the map's entries, sorted |
| Ranking.SortedUnique | src/common/functions.rs:29-41 | two sorted listings of the same entries are equal, so an unstable sort still has one result |
| Ranking.SortRankedMapDeterministic | src/common/functions.rs:29-68 | the sorted listing does not depend on the map's iteration order |
| Ranking.SortedPrefix | src/common/functions.rs:108-111 | the first `k` sorted entries are sorted, come from the map, and precede every entry left out |
| Ranking.RankedScores | src/common/functions.rs:93-114 | `min(n, len(map))` entries from the map, empty for `n = 0`, sorted, preceding every entry left out |
| Ranking.RankedStrings | src/common/functions.rs:70-91 | `min(n, len(map))` distinct words of the map, in comparator order, preceding every word left out |
| Ranking.RankedWords | src/common/functions.rs:85-89 | the words of a sorted prefix are distinct map keys in comparator order |
| Ranking.RankedStringsAreRankedScoreWords | src/common/functions.rs:70-114 | `get_ranked_strings` is the word column of `get_ranked_scores` |
| Ranking.RankedDeterministic | src/common/functions.rs:70-114 | both rankings do not depend on the map's iteration order |
| Ranking.TieBrokenByWord | src/common/functions.rs:34-36 | `{"a": 1.0, "b": 1.0}` ranks as `[("a", 1.0), ("b", 1.0)]` |
| PhraseSplit.AllWordsAppend | src/tokenizer.rs:245-247 | emitting a phrase appends its words to the words emitted so far |
| PhraseSplit.Absorb | src/tokenizer.rs:53-66 | punctuation or an empty token changes nothing; a stopword closes a non-empty phrase and is appended nowhere; any other token extends the phrase with a single `' '` (if the phrase is non-empty) followed by the token, and a token without whitespace adds exactly that word |
| PhraseSplit.AppendWords | src/tokenizer.rs:60-64 | appending a word, with a space when the phrase is non-empty, adds exactly that word to the phrase's words |
| PhraseSplit.Cap | src/tokenizer.rs:67-72 | with no cap nothing changes; with a cap the phrase is emitted as a whole or not at all, words are neither lost nor added, and the phrase is emitted exactly when its word count is at least `length` and kept unchanged when it is shorter |
| PhraseSplit.CreatePhrase | src/tokenizer.rs:40-75 | already emitted phrases are kept; for a token without whitespace, the phrases plus the accumulator gain exactly the token when it is kept, nothing otherwise |
| PhraseSplit.FoldContent | src/tokenizer.rs:230-243 | after the fold, the emitted phrases plus the accumulator hold exactly the kept tokens, in order |
| PhraseSplit.SplitKeepsWords | src/tokenizer.rs:225-250 | the words of all emitted phrases, in order, are exactly the non-stopword, non-punctuation tokens in input order |
| PhraseSplit.KeptWordsMembers | src/tokenizer.rs:53-65 | every kept word is an input token that is neither punctuation nor a stopword |
| PhraseSplit.AllWordsMembers | src/tokenizer.rs:245-247 | every word of an emitted phrase is among all emitted words |
| PhraseSplit.NoStopwordInPhrases | src/tokenizer.rs:54-58 | no emitted phrase holds a stopword or a punctuation token |
| PhraseSplit.FoldNoEmpty | src/tokenizer.rs:55-72 | with no cap or a cap of at least 1 the fold never emits an empty phrase |
| PhraseSplit.NoEmptyPhrases | src/tokenizer.rs:245-247 | with no cap or a cap of at least 1 no emitted phrase is empty, the final flush included |
| PhraseSplit.CapEmitsFullPhrase | src/tokenizer.rs:59-72 | under a cap of `n >= 1`, a kept token either extends a phrase that stays below `n` words or completes it to exactly `n` words, and then the cap emits that phrase |
| PhraseSplit.StepWithinCap | src/tokenizer.rs:67-72 | one token keeps every emitted phrase within the cap and the accumulator below it |
| PhraseSplit.FoldWithinCap | src/tokenizer.rs:67-72 | during the fold every emitted phrase has at most `length` words and the accumulator fewer |
| PhraseSplit.PhrasesWithinCap | src/tokenizer.rs:67-72 | with a cap of `length >= 1` no emitted phrase has more than `length` words |
| PhraseSplit.ZeroCapStep | src/tokenizer.rs:67-71 | with a cap of 0 each token emits one phrase, the token itself or the empty phrase |
| PhraseSplit.ZeroCapFold | src/tokenizer.rs:230-243 | with a cap of 0 the fold ends with an empty accumulator and one phrase per token |
| PhraseSplit.ZeroCapPhrasesAt | src/tokenizer.rs:67-71 | the phrase of token `k` under a cap of 0 sits at position `k` |
| PhraseSplit.ZeroCapOnePhrasePerToken | src/tokenizer.rs:67-71 | with `Some(0)` there is one phrase per token, empty when the token was a stopword or punctuation |

## Left out

- Token normalisation is taken as already done: tokens arrive trimmed, lowercased and cleaned. This covers the `get_special_char_regex` replacement, `trim`, `to_lowercase`, `process_word` and the `split_word_bounds` segmentation that produces the tokens. These are external crates whose behaviour is not part of this model.
- PhraseSplit.FoldContent: the content lemmas ask every token to be free of whitespace (`SolidTokens`). `split_word_bounds` can yield whitespace runs; after `trim` those become the empty token, which is skipped. The lemmas do not model what happens to a token that still holds inner whitespace.
- PhraseSplit.IsPunctuation: `graphemes(true).count() == 1` is modelled as "exactly one code point". Grapheme segmentation is left out.
- Sentence and paragraph splitting, and `parallel_phrase_split` (which pre-splits with a regex), are left out. Only the sequential fold of `basic_phrase_split` is modelled.
- Every `#[cfg(feature = "parallel")]` branch is left out. The sequential branches compute the same maps.
- `to_static_str` leaks strings to extend their lifetime. Strings are owned values here.
- `src/tf_idf/document_processor.rs` only maps `process_word` over segmentation output. It is not part of this model.
- f32 arithmetic is modelled as exact `real` arithmetic. Rounding, NaN and infinities are left out, and so is the comparator's `unwrap_or(Equal)` for NaN. Counts are unbounded `nat`: `usize` overflow of `index + window_size + 1` is left out.
- CoOccurrenceMatrix.Normalise: requires `max > 0`. The source divides by a zero maximum too, which in f32 gives a matrix of NaN.
- CoOccurrenceMatrix.New: for a non-empty vocabulary whose counts are all 0, `get_matrix` divides every cell by a maximum of 0 and the source builds a matrix of NaN; the model returns `None` in exactly that case. An empty vocabulary has no cells to divide, and the model returns the empty matrix as the source does.
- The `get_matrix` and `get_labels` accessors are the fields `matrix` and `labels` of the `CoOccurrence` datatype.
- TextRank.CreateWordRank: the source's `loop` has no iteration cap and stops only when f32 scores converge, which cannot be proved.
  - The model runs at most `rounds` rounds and stops earlier when `CheckTolerance` holds.
  - `rounds` is a parameter, so the final scores are not claimed to be converged.
  - The score total is claimed only for symmetric graphs, which is what `create_graph` builds (`CreateGraph` proves symmetry).
  - It requires a well-formed graph whose neighbours are nodes. `CreateGraph` establishes the first, and `SymmetricClosed` derives the second.
- TextRank.ScoreWord: requires every neighbour to be an indexed node with a non-zero out-sum (`CanScore`). The source indexes `node_indexes[neighbor]` and `outgoing_weight_sums[neighbor]`, which panic on a missing key. A zero out-sum would be an f32 division by zero; `OutSumAtLeastOne` shows graphs from `create_graph` never have one.
- The order of `graph.keys()` and `graph.values()` is one enumeration `nodes` of the graph's nodes. The source relies on a `HashMap` visiting its keys and its values in the same order.
- PhraseScore.ScorePhrase: requires at least one word. On an empty phrase the source divides 0 by 0.
- PhraseScore.RankPhrases: requires every phrase to hold at least one word, for the same reason.
- `build_text_rank` only chains `create_graph`, `create_word_rank` and `rank_phrases`. Its composition is not modelled as a member of its own.
