/**
 * Phrase scores from a word rank (`score_phrase` and `rank_phrases` in
 * src/text_rank/text_rank_logic.rs).
 *
 * A phrase scores the sum of the ranks of its words that have one, divided by
 * the number of ALL its words: a word with no rank adds nothing to the sum but
 * still counts in the denominator.
 */
module PhraseScore {
  import opened Indexing
  import opened Text

  /** What a word contributes to the phrase's score sum: its score, or nothing when it is unscored. */
  function WordScore(word: string, rank: map<string, real>): real {
    if word in rank then rank[word] else 0.0
  }

  /** The sum of the scored words' scores, left to right, skipping unscored words. */
  function ScoreSum(words: seq<string>, rank: map<string, real>): real {
    if |words| == 0 then 0.0
    else ScoreSum(words[..|words| - 1], rank) + WordScore(words[|words| - 1], rank)
  }

  /** The sum of a concatenation is the sum of the parts. */
  lemma {:induction false} ScoreSumAppend(a: seq<string>, b: seq<string>, rank: map<string, real>)
    ensures ScoreSum(a + b, rank) == ScoreSum(a, rank) + ScoreSum(b, rank)
    decreases |b|
  {
    if |b| == 0 {
      assert a + b == a;
    } else {
      var init := b[..|b| - 1];
      assert (a + b)[..|a + b| - 1] == a + init;
      ScoreSumAppend(a, init, rank);
    }
  }

  /** Words with scores in `[0, hi]` sum to between 0 and `hi` per word. */
  lemma {:induction false} ScoreSumBounds(words: seq<string>, rank: map<string, real>, hi: real)
    requires 0.0 <= hi
    requires forall w :: w in rank ==> 0.0 <= rank[w] <= hi
    ensures 0.0 <= ScoreSum(words, rank) <= hi * |words| as real
    decreases |words|
  {
    if |words| > 0 {
      ScoreSumBounds(words[..|words| - 1], rank, hi);
    }
  }

  /** When every word has score `c`, the sum is `c` per word. */
  lemma {:induction false} ScoreSumUniform(words: seq<string>, rank: map<string, real>, c: real)
    requires forall k :: 0 <= k < |words| ==> words[k] in rank && rank[words[k]] == c
    ensures ScoreSum(words, rank) == c * |words| as real
    decreases |words|
  {
    if |words| > 0 {
      ScoreSumUniform(words[..|words| - 1], rank, c);
    }
  }

  /** Words the rank does not know add nothing. */
  lemma {:induction false} ScoreSumUnscored(words: seq<string>, rank: map<string, real>)
    requires forall k :: 0 <= k < |words| ==> words[k] !in rank
    ensures ScoreSum(words, rank) == 0.0
    decreases |words|
  {
    if |words| > 0 {
      ScoreSumUnscored(words[..|words| - 1], rank);
    }
  }

  /**
   * `score_phrase`: the mean over all the phrase's words of their scores,
   * unscored words counting as 0. An empty phrase would divide by zero, so
   * the phrase must hold a word.
   */
  function ScorePhrase(phrase: string, rank: map<string, real>): (score: real)
    requires WordCount(phrase) > 0
    ensures score * WordCount(phrase) as real == ScoreSum(SplitWhitespace(phrase), rank)
  {
    ScoreSum(SplitWhitespace(phrase), rank) / WordCount(phrase) as real
  }

  /** A phrase's score lies within the range of the word scores, and at least 0. */
  lemma PhraseScoreBounds(phrase: string, rank: map<string, real>, hi: real)
    requires WordCount(phrase) > 0
    requires 0.0 <= hi
    requires forall w :: w in rank ==> 0.0 <= rank[w] <= hi
    ensures 0.0 <= ScorePhrase(phrase, rank) <= hi
  {
    ScoreSumBounds(SplitWhitespace(phrase), rank, hi);
    MeanBounds(ScoreSum(SplitWhitespace(phrase), rank), WordCount(phrase) as real, hi, ScorePhrase(phrase, rank));
  }

  lemma MeanBounds(sum: real, n: real, hi: real, mean: real)
    requires n > 0.0 && 0.0 <= sum <= hi * n && mean * n == sum
    ensures 0.0 <= mean <= hi
  {
  }

  /** A phrase whose words all score `c` scores `c`. */
  lemma PhraseScoreUniform(phrase: string, rank: map<string, real>, c: real)
    requires WordCount(phrase) > 0
    requires forall w :: w in SplitWhitespace(phrase) ==> w in rank && rank[w] == c
    ensures ScorePhrase(phrase, rank) == c
  {
    ScoreSumUniform(SplitWhitespace(phrase), rank, c);
    MeanOfConstant(c, WordCount(phrase) as real, ScorePhrase(phrase, rank));
  }

  lemma MeanOfConstant(c: real, n: real, mean: real)
    requires n > 0.0 && mean * n == c * n
    ensures mean == c
  {
  }

  /**
   * Appending a word with no score dilutes the mean: a phrase of `n` words
   * scoring `s` becomes a phrase of `n + 1` words scoring `s * n / (n + 1)`.
   */
  lemma PhraseScoreDilution(phrase: string, w: string, rank: map<string, real>)
    requires WordCount(phrase) > 0
    requires IsWord(w) && w !in rank
    ensures WordCount(phrase + " " + w) == WordCount(phrase) + 1
    ensures ScorePhrase(phrase + " " + w, rank)
            == ScorePhrase(phrase, rank) * WordCount(phrase) as real / (WordCount(phrase) + 1) as real
  {
    var words := SplitWhitespace(phrase);
    SplitAppendWord(phrase, w);
    assert (words + [w])[..|words|] == words;
    Dilute(ScoreSum(words, rank), |words| as real, ScorePhrase(phrase, rank), ScorePhrase(phrase + " " + w, rank));
  }

  lemma Dilute(sum: real, n: real, before: real, after: real)
    requires n > 0.0 && before * n == sum && after * (n + 1.0) == sum
    ensures after == before * n / (n + 1.0)
  {
  }

  /** With "quick" at 0.6 and "fox" at 0.4, the phrase "quick fox" scores their mean 0.5. */
  lemma QuickFox()
    ensures WordCount("quick fox") == 2
    ensures ScorePhrase("quick fox", map["quick" := 0.6, "fox" := 0.4]) == 0.5
  {
    QuickFoxWords();
    assert ScoreSum(["quick", "fox"], map["quick" := 0.6, "fox" := 0.4]) == 1.0 by {
      assert ["quick", "fox"][..1] == ["quick"];
      assert ["quick"][..0] == [];
    }
  }

  /** Only "quick" scored, at 1: the unscored "fox" still halves the mean. */
  lemma QuickFoxUnscored()
    ensures ScorePhrase("quick fox", map["quick" := 1.0]) == 0.5
  {
    QuickFoxWords();
    assert ScoreSum(["quick", "fox"], map["quick" := 1.0]) == 1.0 by {
      assert ["quick", "fox"][..1] == ["quick"];
      assert ["quick"][..0] == [];
    }
  }

  lemma QuickFoxWords()
    ensures SplitWhitespace("quick fox") == ["quick", "fox"]
  {
    assert IsWord("fox");
    assert IsWord("quick");
    SplitWord("quick");
    SplitAppendWord("quick", "fox");
    assert "quick fox" == "quick" + " " + "fox";
  }

  /**
   * `rank_phrases`: every phrase to its score, collected into a map. A phrase
   * listed twice gets one key.
   */
  function RankPhrases(phrases: seq<string>, rank: map<string, real>): (ranked: map<string, real>)
    requires forall k :: 0 <= k < |phrases| ==> WordCount(phrases[k]) > 0
    ensures forall p :: p in ranked <==> p in phrases
    ensures forall p :: p in ranked ==> WordCount(p) > 0 && ranked[p] == ScorePhrase(p, rank)
  {
    if |phrases| == 0 then map[]
    else
      var last := phrases[|phrases| - 1];
      assert forall p :: p in phrases <==> p in phrases[..|phrases| - 1] || p == last;
      RankPhrases(phrases[..|phrases| - 1], rank)[last := ScorePhrase(last, rank)]
  }

  /** Distinct phrases get one key each. */
  lemma RankPhrasesSize(phrases: seq<string>, rank: map<string, real>)
    requires forall k :: 0 <= k < |phrases| ==> WordCount(phrases[k]) > 0
    requires Distinct(phrases)
    ensures |RankPhrases(phrases, rank)| == |phrases|
  {
    var ranked := RankPhrases(phrases, rank);
    assert Enumerates(phrases, ranked.Keys);
    EnumerationSize(phrases, ranked.Keys);
  }
}
