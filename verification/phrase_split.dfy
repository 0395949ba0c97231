/**
 * Phrase chunking (`create_phrase` and the fold in `basic_phrase_split`,
 * src/tokenizer.rs).
 *
 * The text arrives as a sequence of already normalised tokens. A stopword
 * closes the phrase being built, punctuation and empty tokens are skipped,
 * every other token is appended with a single space, and an optional length
 * cap emits the phrase as soon as it holds that many words. Whatever is left
 * at the end is emitted when non-empty.
 */
module PhraseSplit {
  import opened Wrappers
  import opened Text

  /** The punctuation set, the stopword set and the optional phrase length cap. */
  datatype Config = Config(punctuation: set<string>, stopwords: set<string>, length: Option<nat>)

  /** The fold's accumulator: the phrases emitted so far and the phrase being built. */
  datatype State = State(phrases: seq<string>, phrase: string)

  /** `is_punctuation`: the empty token, or a one-character token of the punctuation set. */
  predicate IsPunctuation(word: string, punctuation: set<string>) {
    |word| == 0 || (|word| == 1 && word in punctuation)
  }

  /** A token that ends up in a phrase: neither punctuation nor a stopword. */
  predicate Kept(word: string, cfg: Config) {
    !IsPunctuation(word, cfg.punctuation) && word !in cfg.stopwords
  }

  /** The words of every phrase, one phrase after the other. */
  function AllWords(phrases: seq<string>): seq<string> {
    if |phrases| == 0 then []
    else AllWords(phrases[..|phrases| - 1]) + SplitWhitespace(phrases[|phrases| - 1])
  }

  lemma AllWordsAppend(phrases: seq<string>, p: string)
    ensures AllWords(phrases + [p]) == AllWords(phrases) + SplitWhitespace(p)
  {
    assert (phrases + [p])[..|phrases|] == phrases;
  }

  /** The kept tokens, in input order. */
  function KeptWords(words: seq<string>, cfg: Config): seq<string> {
    if |words| == 0 then []
    else
      var last := words[|words| - 1];
      KeptWords(words[..|words| - 1], cfg) + (if Kept(last, cfg) then [last] else [])
  }

  /** The words emitted and pending in a state. */
  function Content(s: State): seq<string> {
    AllWords(s.phrases) + SplitWhitespace(s.phrase)
  }

  /**
   * The first half of `create_phrase`: skip punctuation, let a stopword close
   * a non-empty phrase, append anything else after a single space.
   */
  function Absorb(s: State, word: string, cfg: Config): (r: State)
    ensures IsPunctuation(word, cfg.punctuation) ==> r == s
    ensures !IsPunctuation(word, cfg.punctuation) && word in cfg.stopwords
            ==> r.phrase == "" && r.phrases == s.phrases + Flush(s.phrase)
    ensures Kept(word, cfg) ==> r.phrases == s.phrases && s.phrase <= r.phrase
    ensures Kept(word, cfg) ==> |r.phrase| == |s.phrase| + |word| + (if |s.phrase| > 0 then 1 else 0)
    ensures Kept(word, cfg) && Solid(word) ==> SplitWhitespace(r.phrase) == SplitWhitespace(s.phrase) + [word]
    ensures Kept(word, cfg) ==> r.phrase == (if |s.phrase| > 0 then s.phrase + " " + word else word)
  {
    if IsPunctuation(word, cfg.punctuation) then s
    else if word in cfg.stopwords then
      if |s.phrase| > 0 then State(s.phrases + [s.phrase], "") else s
    else
      AppendWords(s.phrase, word);
      State(s.phrases, if |s.phrase| > 0 then s.phrase + " " + word else word)
  }

  lemma AppendWords(phrase: string, word: string)
    ensures IsWord(word) ==> SplitWhitespace(if |phrase| > 0 then phrase + " " + word else word) == SplitWhitespace(phrase) + [word]
  {
    if IsWord(word) {
      if |phrase| > 0 {
        SplitAppendWord(phrase, word);
      } else {
        SplitWord(word);
        SplitEmpty();
      }
    }
  }

  /** The second half of `create_phrase`: emit the phrase once it holds `length` words. */
  function Cap(s: State, length: Option<nat>): (r: State)
    ensures s.phrases <= r.phrases
    ensures Content(r) == Content(s)
    ensures length.None? ==> r == s
    ensures length.Some? && length.value >= 1 ==> WordCount(r.phrase) < length.value
    ensures r == s || r == State(s.phrases + [s.phrase], "")
    ensures length.Some? && WordCount(s.phrase) < length.value ==> r == s
    ensures length.Some? && WordCount(s.phrase) >= length.value ==> r == State(s.phrases + [s.phrase], "")
  {
    match length
    case None => s
    case Some(length) =>
      if WordCount(s.phrase) >= length then
        AllWordsAppend(s.phrases, s.phrase);
        SplitEmpty();
        State(s.phrases + [s.phrase], "")
      else s
  }

  /** `create_phrase`: one token's effect on the accumulator. */
  function CreatePhrase(s: State, word: string, cfg: Config): (r: State)
    ensures s.phrases <= r.phrases
    ensures Solid(word) ==> Content(r) == Content(s) + (if Kept(word, cfg) then [word] else [])
  {
    AllWordsAppend(s.phrases, s.phrase);
    SplitEmpty();
    Cap(Absorb(s, word, cfg), cfg.length)
  }

  /** The fold over the tokens, from the empty accumulator. */
  function Fold(words: seq<string>, cfg: Config): State {
    if |words| == 0 then State([], "")
    else CreatePhrase(Fold(words[..|words| - 1], cfg), words[|words| - 1], cfg)
  }

  /** `basic_phrase_split` on normalised tokens: the fold, then a non-empty last phrase. */
  function SplitPhrases(words: seq<string>, cfg: Config): seq<string> {
    var s := Fold(words, cfg);
    s.phrases + Flush(s.phrase)
  }

  // ---------------------------------------------------------------------------
  // Properties of the whole split
  // ---------------------------------------------------------------------------

  /** Every token is a single word at most: normalisation never leaves whitespace inside a token. */
  predicate SolidTokens(words: seq<string>) {
    forall k :: 0 <= k < |words| ==> Solid(words[k])
  }

  lemma {:induction false} FoldContent(words: seq<string>, cfg: Config)
    requires SolidTokens(words)
    ensures Content(Fold(words, cfg)) == KeptWords(words, cfg)
    decreases |words|
  {
    if |words| == 0 {
      SplitEmpty();
    } else {
      FoldContent(words[..|words| - 1], cfg);
    }
  }

  /** The phrases, read word by word, are exactly the kept tokens in input order. */
  lemma SplitKeepsWords(words: seq<string>, cfg: Config)
    requires SolidTokens(words)
    ensures AllWords(SplitPhrases(words, cfg)) == KeptWords(words, cfg)
  {
    var s := Fold(words, cfg);
    FoldContent(words, cfg);
    if |s.phrase| > 0 {
      AllWordsAppend(s.phrases, s.phrase);
    } else {
      SplitEmpty();
      assert s.phrases + Flush(s.phrase) == s.phrases;
    }
  }

  lemma {:induction false} KeptWordsMembers(words: seq<string>, cfg: Config, w: string)
    requires w in KeptWords(words, cfg)
    ensures w in words && Kept(w, cfg)
    decreases |words|
  {
    var init := words[..|words| - 1];
    if w in KeptWords(init, cfg) {
      KeptWordsMembers(init, cfg, w);
    }
  }

  lemma {:induction false} AllWordsMembers(phrases: seq<string>, k: nat, w: string)
    requires k < |phrases|
    requires w in SplitWhitespace(phrases[k])
    ensures w in AllWords(phrases)
    decreases |phrases|
  {
    if k < |phrases| - 1 {
      AllWordsMembers(phrases[..|phrases| - 1], k, w);
    }
  }

  /** No phrase contains a stopword or a punctuation token. */
  lemma NoStopwordInPhrases(words: seq<string>, cfg: Config, k: nat, w: string)
    requires SolidTokens(words)
    requires k < |SplitPhrases(words, cfg)|
    requires w in SplitWhitespace(SplitPhrases(words, cfg)[k])
    ensures w !in cfg.stopwords && !IsPunctuation(w, cfg.punctuation)
  {
    SplitKeepsWords(words, cfg);
    AllWordsMembers(SplitPhrases(words, cfg), k, w);
    KeptWordsMembers(words, cfg, w);
  }

  /** Without a cap, or with a cap of at least 1, no emitted phrase is empty. */
  lemma {:induction false} FoldNoEmpty(words: seq<string>, cfg: Config)
    requires cfg.length.None? || cfg.length.value >= 1
    ensures forall k :: 0 <= k < |Fold(words, cfg).phrases| ==> |Fold(words, cfg).phrases[k]| > 0
    decreases |words|
  {
    if |words| > 0 {
      var init := words[..|words| - 1];
      FoldNoEmpty(init, cfg);
      var s := Fold(init, cfg);
      var t := Absorb(s, words[|words| - 1], cfg);
      assert forall k :: 0 <= k < |t.phrases| ==> |t.phrases[k]| > 0;
      if cfg.length.Some? && |Cap(t, cfg.length).phrases| > |t.phrases| {
        assert WordCount(t.phrase) >= 1;
        SplitEmpty();
      }
    }
  }

  lemma NoEmptyPhrases(words: seq<string>, cfg: Config)
    requires cfg.length.None? || cfg.length.value >= 1
    ensures forall k :: 0 <= k < |SplitPhrases(words, cfg)| ==> |SplitPhrases(words, cfg)[k]| > 0
  {
    FoldNoEmpty(words, cfg);
  }

  /** With a cap of `n >= 1`, every emitted phrase has at most `n` words. */
  lemma {:induction false} FoldWithinCap(words: seq<string>, cfg: Config, n: nat)
    requires SolidTokens(words)
    requires cfg.length == Some(n) && n >= 1
    ensures forall k :: 0 <= k < |Fold(words, cfg).phrases| ==> WordCount(Fold(words, cfg).phrases[k]) <= n
    ensures WordCount(Fold(words, cfg).phrase) < n
    decreases |words|
  {
    if |words| == 0 {
      SplitEmpty();
    } else {
      var init := words[..|words| - 1];
      FoldWithinCap(init, cfg, n);
      StepWithinCap(Fold(init, cfg), words[|words| - 1], cfg, n);
    }
  }

  /** One token keeps the phrases within the cap and the pending phrase below it. */
  /**
   * With a cap of `n`, a kept token either extends a phrase still shorter than
   * `n` words, or completes it to exactly `n` words, and then the cap emits it.
   */
  lemma CapEmitsFullPhrase(s: State, w: string, cfg: Config, n: nat)
    requires Solid(w) && Kept(w, cfg)
    requires cfg.length == Some(n) && n >= 1
    requires WordCount(s.phrase) < n
    ensures var p := Absorb(s, w, cfg).phrase;
            WordCount(s.phrase) + 1 == n ==> && CreatePhrase(s, w, cfg) == State(s.phrases + [p], "")
                                              && WordCount(p) == n
    ensures WordCount(s.phrase) + 1 < n ==> CreatePhrase(s, w, cfg) == Absorb(s, w, cfg)
  {
  }

  lemma StepWithinCap(s: State, w: string, cfg: Config, n: nat)
    requires Solid(w)
    requires cfg.length == Some(n) && n >= 1
    requires forall k :: 0 <= k < |s.phrases| ==> WordCount(s.phrases[k]) <= n
    requires WordCount(s.phrase) < n
    ensures forall k :: 0 <= k < |CreatePhrase(s, w, cfg).phrases| ==> WordCount(CreatePhrase(s, w, cfg).phrases[k]) <= n
    ensures WordCount(CreatePhrase(s, w, cfg).phrase) < n
  {
    var t := Absorb(s, w, cfg);
    assert WordCount(t.phrase) <= n && forall k :: 0 <= k < |t.phrases| ==> WordCount(t.phrases[k]) <= n by {
      if Kept(w, cfg) {
        assert t.phrases == s.phrases;
      } else if !IsPunctuation(w, cfg.punctuation) {
        SplitEmpty();
      }
    }
  }

  lemma PhrasesWithinCap(words: seq<string>, cfg: Config, n: nat)
    requires SolidTokens(words)
    requires cfg.length == Some(n) && n >= 1
    ensures forall k :: 0 <= k < |SplitPhrases(words, cfg)| ==> WordCount(SplitPhrases(words, cfg)[k]) <= n
  {
    FoldWithinCap(words, cfg, n);
  }

  /**
   * With a cap of 0 the `>=` test passes after every token, so each token
   * emits exactly one phrase: the token itself when kept, the empty phrase
   * otherwise.
   */
  lemma ZeroCapOnePhrasePerToken(words: seq<string>, cfg: Config)
    requires cfg.length == Some(0)
    ensures |SplitPhrases(words, cfg)| == |words|
    ensures forall k :: 0 <= k < |words| ==> SplitPhrases(words, cfg)[k] == ZeroCapPhrase(words[k], cfg)
  {
    ZeroCapFold(words, cfg);
    assert SplitPhrases(words, cfg) == ZeroCapPhrases(words, cfg);
    ZeroCapPhrasesAt(words, cfg);
  }

  /** Under a cap of 0 the fold never holds a pending phrase. */
  lemma {:induction false} ZeroCapFold(words: seq<string>, cfg: Config)
    requires cfg.length == Some(0)
    ensures Fold(words, cfg) == State(ZeroCapPhrases(words, cfg), "")
    decreases |words|
  {
    if |words| > 0 {
      var init := words[..|words| - 1];
      ZeroCapFold(init, cfg);
      ZeroCapStep(Fold(init, cfg), words[|words| - 1], cfg);
    }
  }

  /** The phrases a cap of 0 emits, one per token. */
  function ZeroCapPhrases(words: seq<string>, cfg: Config): seq<string> {
    if |words| == 0 then []
    else ZeroCapPhrases(words[..|words| - 1], cfg) + [ZeroCapPhrase(words[|words| - 1], cfg)]
  }

  lemma {:induction false} ZeroCapPhrasesAt(words: seq<string>, cfg: Config)
    ensures |ZeroCapPhrases(words, cfg)| == |words|
    ensures forall k :: 0 <= k < |words| ==> ZeroCapPhrases(words, cfg)[k] == ZeroCapPhrase(words[k], cfg)
    decreases |words|
  {
    if |words| > 0 {
      ZeroCapPhrasesAt(words[..|words| - 1], cfg);
    }
  }

  lemma ZeroCapStep(s: State, w: string, cfg: Config)
    requires cfg.length == Some(0) && s.phrase == ""
    ensures CreatePhrase(s, w, cfg) == State(s.phrases + [ZeroCapPhrase(w, cfg)], "")
  {
    var t := Absorb(s, w, cfg);
    assert t.phrases == s.phrases && t.phrase == ZeroCapPhrase(w, cfg);
  }

  /** The phrase a token emits under a cap of 0. */
  function ZeroCapPhrase(word: string, cfg: Config): string {
    if Kept(word, cfg) then word else ""
  }
}
