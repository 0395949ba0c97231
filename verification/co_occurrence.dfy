/**
 * The windowed co-occurrence matrix (src/co_occurrence.rs).
 *
 * Every vocabulary word gets a label (its position in the vocabulary). For every
 * document, split on whitespace, and every position `i` holding a vocabulary
 * word, every other position `j` within `windowSize` of `i` holding a vocabulary
 * word adds one to the cell (label at `i`, label at `j`). The counts are then
 * divided by the largest count. Counts are modelled as `nat`, the division as a
 * separate step over `real`.
 */
module CoOccurrenceMatrix {
  import opened Wrappers
  import opened Indexing
  import opened Text

  /** The half-open index range `start..end`; empty when `end <= start`. */
  datatype Range = Range(start: nat, end: nat)

  function Distance(i: nat, j: nat): nat {
    if i <= j then j - i else i - j
  }

  /** Position `j` of a sequence of `length` tokens lies within `windowSize` of `index`. */
  predicate InWindow(windowSize: nat, index: nat, length: nat, j: nat) {
    j < length && Distance(index, j) <= windowSize
  }

  /** `get_window_range`: the positions within `windowSize` of `index`, clamped to the sequence. */
  function WindowRange(windowSize: nat, index: nat, length: nat): (r: Range)
    ensures r.start <= index
    ensures forall j: nat :: r.start <= j < r.end <==> InWindow(windowSize, index, length, j)
    ensures index < length ==> r.start <= index < r.end <= length
  {
    // The start stops at 0 instead of underflowing; the end is capped at the token count.
    var start := if index >= windowSize then index - windowSize else 0;
    var end := if index + windowSize + 1 < length then index + windowSize + 1 else length;
    Range(start, end)
  }

  /** One document's tokens, the vocabulary labels and the window radius. */
  datatype Scan = Scan(tokens: seq<string>, labels: map<string, nat>, windowSize: nat)

  /** The label of the token at position `i`, when it is a vocabulary word. */
  function LabelAt(s: Scan, i: nat): Option<nat> {
    if i < |s.tokens| && s.tokens[i] in s.labels then Some(s.labels[s.tokens[i]]) else None
  }

  /** Positions `i` and `j` are a co-occurrence of label `a` (at `i`) with label `b` (at `j`). */
  predicate IsHit(s: Scan, a: nat, b: nat, i: nat, j: nat) {
    && i != j
    && Distance(i, j) <= s.windowSize
    && LabelAt(s, i) == Some(a)
    && LabelAt(s, j) == Some(b)
  }

  /** Number of hits `(i, j)` with `j < hi`. */
  function RowHits(s: Scan, a: nat, b: nat, i: nat, hi: nat): nat {
    if hi == 0 then 0 else RowHits(s, a, b, i, hi - 1) + (if IsHit(s, a, b, i, hi - 1) then 1 else 0)
  }

  /** Number of hits `(i, j)` with `i < hi`. */
  function ColumnHits(s: Scan, a: nat, b: nat, j: nat, hi: nat): nat {
    if hi == 0 then 0 else ColumnHits(s, a, b, j, hi - 1) + (if IsHit(s, a, b, hi - 1, j) then 1 else 0)
  }

  /** Number of hits `(i, j)` with `i < rows` and `j < cols`. */
  function GridHits(s: Scan, a: nat, b: nat, rows: nat, cols: nat): nat {
    if rows == 0 then 0 else GridHits(s, a, b, rows - 1, cols) + RowHits(s, a, b, rows - 1, cols)
  }

  /** Ordered position pairs of one document that co-occur with labels `a` and `b`. */
  function DocumentCount(s: Scan, a: nat, b: nat): nat {
    GridHits(s, a, b, |s.tokens|, |s.tokens|)
  }

  /** The raw count of cell `(a, b)`: co-occurring position pairs summed over all documents. */
  function CorpusCount(documents: seq<string>, labels: map<string, nat>, windowSize: nat, a: nat, b: nat): nat {
    if |documents| == 0 then 0
    else
      CorpusCount(documents[..|documents| - 1], labels, windowSize, a, b)
      + DocumentCount(Scan(SplitWhitespace(documents[|documents| - 1]), labels, windowSize), a, b)
  }

  predicate IsSquare<T>(m: seq<seq<T>>, n: nat) {
    |m| == n && forall a :: 0 <= a < n ==> |m[a]| == n
  }

  predicate IsSymmetric<T(==)>(m: seq<seq<T>>) {
    forall a, b :: 0 <= a < |m| && 0 <= b < |m| && b < |m[a]| && a < |m[b]| ==> m[a][b] == m[b][a]
  }

  /** `max` is the largest cell of `m`, and 0 when there is none above 0. */
  predicate IsMaxCell(m: seq<seq<nat>>, max: nat) {
    && (forall a, b :: 0 <= a < |m| && 0 <= b < |m[a]| ==> m[a][b] <= max)
    && (max == 0 || exists a, b :: 0 <= a < |m| && 0 <= b < |m[a]| && m[a][b] == max)
  }

  lemma HitSwap(s: Scan, a: nat, b: nat, i: nat, j: nat)
    ensures IsHit(s, a, b, i, j) <==> IsHit(s, b, a, j, i)
  {
  }

  /** A column of `(a, b)` hits is the matching row of `(b, a)` hits. */
  lemma {:induction false} ColumnIsSwappedRow(s: Scan, a: nat, b: nat, j: nat, hi: nat)
    ensures ColumnHits(s, a, b, j, hi) == RowHits(s, b, a, j, hi)
  {
    if hi > 0 {
      ColumnIsSwappedRow(s, a, b, j, hi - 1);
      HitSwap(s, a, b, hi - 1, j);
    }
  }

  lemma {:induction false} GridAddColumn(s: Scan, a: nat, b: nat, rows: nat, cols: nat)
    ensures GridHits(s, a, b, rows, cols + 1) == GridHits(s, a, b, rows, cols) + ColumnHits(s, a, b, cols, rows)
  {
    if rows > 0 {
      GridAddColumn(s, a, b, rows - 1, cols);
    }
  }

  lemma {:induction false} GridNoColumns(s: Scan, a: nat, b: nat, rows: nat)
    ensures GridHits(s, a, b, rows, 0) == 0
  {
    if rows > 0 {
      GridNoColumns(s, a, b, rows - 1);
    }
  }

  /** Transposing the grid swaps the two labels. */
  lemma {:induction false} GridTranspose(s: Scan, a: nat, b: nat, rows: nat, cols: nat)
    ensures GridHits(s, a, b, rows, cols) == GridHits(s, b, a, cols, rows)
  {
    if cols == 0 {
      GridNoColumns(s, a, b, rows);
    } else {
      GridTranspose(s, a, b, rows, cols - 1);
      GridAddColumn(s, a, b, rows, cols - 1);
      ColumnIsSwappedRow(s, a, b, cols - 1, rows);
    }
  }

  /** Every pair is counted from both ends: the raw counts are symmetric. */
  lemma {:induction false} CorpusCountSymmetric(documents: seq<string>, labels: map<string, nat>, windowSize: nat, a: nat, b: nat)
    ensures CorpusCount(documents, labels, windowSize, a, b) == CorpusCount(documents, labels, windowSize, b, a)
  {
    if |documents| > 0 {
      CorpusCountSymmetric(documents[..|documents| - 1], labels, windowSize, a, b);
      var s := Scan(SplitWhitespace(documents[|documents| - 1]), labels, windowSize);
      GridTranspose(s, a, b, |s.tokens|, |s.tokens|);
    }
  }

  /** No position pair of the document is a hit. */
  ghost predicate HasNoHit(s: Scan, a: nat, b: nat) {
    forall i: nat, j: nat :: !IsHit(s, a, b, i, j)
  }

  lemma {:induction false} NoHitNoCount(s: Scan, a: nat, b: nat, rows: nat, cols: nat)
    requires HasNoHit(s, a, b)
    ensures GridHits(s, a, b, rows, cols) == 0
  {
    if rows > 0 {
      NoHitNoCount(s, a, b, rows - 1, cols);
      RowNoHit(s, a, b, rows - 1, cols);
    }
  }

  lemma {:induction false} RowNoHit(s: Scan, a: nat, b: nat, i: nat, hi: nat)
    requires forall j: nat :: !IsHit(s, a, b, i, j)
    ensures RowHits(s, a, b, i, hi) == 0
  {
    if hi > 0 {
      RowNoHit(s, a, b, i, hi - 1);
    }
  }

  /** With `window_size = 0` the only position in range is the centre, which is skipped: every count is 0. */
  lemma {:induction false} WindowZeroCountsNothing(documents: seq<string>, labels: map<string, nat>, a: nat, b: nat)
    ensures CorpusCount(documents, labels, 0, a, b) == 0
  {
    if |documents| > 0 {
      WindowZeroCountsNothing(documents[..|documents| - 1], labels, a, b);
      var s := Scan(SplitWhitespace(documents[|documents| - 1]), labels, 0);
      NoHitNoCount(s, a, b, |s.tokens|, |s.tokens|);
    }
  }

  /** A document without vocabulary words adds nothing, however many tokens it has. */
  lemma UnknownTokensCountNothing(s: Scan, a: nat, b: nat)
    requires forall i :: 0 <= i < |s.tokens| ==> s.tokens[i] !in s.labels
    ensures DocumentCount(s, a, b) == 0
  {
    NoHitNoCount(s, a, b, |s.tokens|, |s.tokens|);
  }

  /** The raw count matrix, `|vocabulary|` square. */
  function CountMatrix(documents: seq<string>, labels: map<string, nat>, length: nat, windowSize: nat): (m: seq<seq<nat>>)
    ensures IsSquare(m, length)
    ensures IsSymmetric(m)
    ensures windowSize == 0 ==> forall a, b :: 0 <= a < length && 0 <= b < length ==> m[a][b] == 0
  {
    var m := seq(length, a requires 0 <= a => seq(length, b requires 0 <= b => CorpusCount(documents, labels, windowSize, a, b)));
    assert IsSymmetric(m) by {
      forall a, b | 0 <= a < length && 0 <= b < length
        ensures m[a][b] == m[b][a]
      {
        CorpusCountSymmetric(documents, labels, windowSize, a, b);
      }
    }
    assert windowSize == 0 ==> forall a, b :: 0 <= a < length && 0 <= b < length ==> m[a][b] == 0 by {
      if windowSize == 0 {
        forall a, b | 0 <= a < length && 0 <= b < length
          ensures m[a][b] == 0
        {
          WindowZeroCountsNothing(documents, labels, a, b);
        }
      }
    }
    m
  }

  /** Hits of row `i` outside the window add nothing. */
  lemma {:induction false} RowHitsOutsideWindow(s: Scan, a: nat, b: nat, i: nat, lo: nat, hi: nat)
    requires lo <= hi
    requires forall j: nat :: lo <= j < hi ==> !InWindow(s.windowSize, i, |s.tokens|, j)
    ensures RowHits(s, a, b, i, hi) == RowHits(s, a, b, i, lo)
    decreases hi
  {
    if hi > lo {
      RowHitsOutsideWindow(s, a, b, i, lo, hi - 1);
      assert !InWindow(s.windowSize, i, |s.tokens|, hi - 1);
    }
  }

  /** A row whose centre is not a vocabulary word has no hit. */
  lemma RowHitsUnknownCentre(s: Scan, a: nat, b: nat, i: nat, hi: nat)
    requires LabelAt(s, i).None?
    ensures RowHits(s, a, b, i, hi) == 0
  {
    RowNoHit(s, a, b, i, hi);
  }

  /** Incrementing one cell and comparing it with the running maximum keeps the maximum. */
  lemma IncrementKeepsMax(before: seq<seq<nat>>, after: seq<seq<nat>>, a0: nat, b0: nat, n: nat, oldMax: nat, newMax: nat)
    requires IsSquare(before, n) && a0 < n && b0 < n
    requires IsMaxCell(before, oldMax)
    requires after == before[a0 := before[a0][b0 := before[a0][b0] + 1]]
    requires newMax == if after[a0][b0] > oldMax then after[a0][b0] else oldMax
    ensures IsMaxCell(after, newMax)
  {
    if newMax > 0 && newMax == oldMax {
      var a, b :| 0 <= a < |before| && 0 <= b < |before[a]| && before[a][b] == oldMax;
      assert after[a][b] == newMax;
    }
  }

  /** The cells of `after` are those of `before` plus the hits of row `i` before `hi`. */
  ghost predicate AddsRow(before: seq<seq<nat>>, after: seq<seq<nat>>, s: Scan, i: nat, hi: nat, n: nat)
    requires IsSquare(before, n) && IsSquare(after, n)
  {
    forall a, b :: 0 <= a < n && 0 <= b < n ==> after[a][b] == before[a][b] + RowHits(s, a, b, i, hi)
  }

  /**
   * The window scan of one token (the inner `for_each` of `get_matrix`): every
   * other vocabulary word in the window of position `i` adds one to its cell.
   */
  method CountWindow(counts: seq<seq<nat>>, max: nat, tokens: seq<string>, labels: map<string, nat>,
                     windowSize: nat, length: nat, i: nat)
    returns (counts': seq<seq<nat>>, max': nat)
    requires forall w :: w in labels ==> labels[w] < length
    requires IsSquare(counts, length) && IsMaxCell(counts, max)
    requires i < |tokens|
    ensures IsSquare(counts', length) && IsMaxCell(counts', max')
    ensures forall a, b :: 0 <= a < length && 0 <= b < length ==>
              counts'[a][b] == counts[a][b] + RowHits(Scan(tokens, labels, windowSize), a, b, i, |tokens|)
  {
    ghost var s := Scan(tokens, labels, windowSize);
    counts', max' := counts, max;
    if tokens[i] !in labels {
      forall a, b | 0 <= a < length && 0 <= b < length
        ensures RowHits(s, a, b, i, |tokens|) == 0
      {
        RowHitsUnknownCentre(s, a, b, i, |tokens|);
      }
      return;
    }
    var first := labels[tokens[i]];
    var range := WindowRange(windowSize, i, |tokens|);
    forall a, b | 0 <= a < length && 0 <= b < length
      ensures RowHits(s, a, b, i, range.start) == 0
    {
      RowHitsOutsideWindow(s, a, b, i, 0, range.start);
    }
    var j := range.start;
    while j < range.end
      invariant range.start <= j <= range.end
      invariant IsSquare(counts', length) && IsMaxCell(counts', max')
      invariant AddsRow(counts, counts', s, i, j, length)
    {
      assert InWindow(windowSize, i, |tokens|, j);
      if i != j && tokens[j] in labels {
        var other := labels[tokens[j]];
        ghost var before, beforeMax := counts', max';
        counts' := counts'[first := counts'[first][other := counts'[first][other] + 1]];
        if counts'[first][other] > max' {
          max' := counts'[first][other];
        }
        IncrementKeepsMax(before, counts', first, other, length, beforeMax, max');
      }
      j := j + 1;
    }
    forall a, b | 0 <= a < length && 0 <= b < length
      ensures RowHits(s, a, b, i, |tokens|) == RowHits(s, a, b, i, range.end)
    {
      RowHitsOutsideWindow(s, a, b, i, range.end, |tokens|);
    }
  }

  /** One document of `get_matrix`: every vocabulary position scans its window. */
  method CountDocument(counts: seq<seq<nat>>, max: nat, tokens: seq<string>, labels: map<string, nat>,
                       windowSize: nat, length: nat)
    returns (counts': seq<seq<nat>>, max': nat)
    requires forall w :: w in labels ==> labels[w] < length
    requires IsSquare(counts, length) && IsMaxCell(counts, max)
    ensures IsSquare(counts', length) && IsMaxCell(counts', max')
    ensures forall a, b :: 0 <= a < length && 0 <= b < length ==>
              counts'[a][b] == counts[a][b] + DocumentCount(Scan(tokens, labels, windowSize), a, b)
  {
    ghost var s := Scan(tokens, labels, windowSize);
    counts', max' := counts, max;
    var i := 0;
    while i < |tokens|
      invariant 0 <= i <= |tokens|
      invariant IsSquare(counts', length) && IsMaxCell(counts', max')
      invariant forall a, b :: 0 <= a < length && 0 <= b < length ==>
                  counts'[a][b] == counts[a][b] + GridHits(s, a, b, i, |tokens|)
    {
      counts', max' := CountWindow(counts', max', tokens, labels, windowSize, length, i);
      i := i + 1;
    }
  }

  /**
   * `get_matrix`, counting part: accumulates the raw counts document by
   * document and tracks the running maximum.
   */
  method CountCooccurrences(documents: seq<string>, labels: map<string, nat>, length: nat, windowSize: nat)
    returns (counts: seq<seq<nat>>, max: nat)
    requires forall w :: w in labels ==> labels[w] < length
    ensures counts == CountMatrix(documents, labels, length, windowSize)
    ensures IsMaxCell(counts, max)
  {
    counts := seq(length, _ => seq(length, _ => 0));
    max := 0;
    var d := 0;
    while d < |documents|
      invariant 0 <= d <= |documents|
      invariant IsSquare(counts, length) && IsMaxCell(counts, max)
      invariant forall a, b :: 0 <= a < length && 0 <= b < length ==>
                  counts[a][b] == CorpusCount(documents[..d], labels, windowSize, a, b)
    {
      counts, max := CountDocument(counts, max, SplitWhitespace(documents[d]), labels, windowSize, length);
      assert documents[..d + 1][..d] == documents[..d];
      d := d + 1;
    }
    assert documents[..|documents|] == documents;
    ghost var expected := CountMatrix(documents, labels, length, windowSize);
    assert forall a :: 0 <= a < length ==> counts[a] == expected[a];
  }

  /** Every cell lies in `[0, 1]`. */
  predicate InUnitInterval(m: seq<seq<real>>) {
    forall a, b :: 0 <= a < |m| && 0 <= b < |m[a]| ==> 0.0 <= m[a][b] <= 1.0
  }

  /** Some cell equals 1. */
  predicate HasUnitCell(m: seq<seq<real>>) {
    exists a, b :: 0 <= a < |m| && 0 <= b < |m[a]| && m[a][b] == 1.0
  }

  /**
   * `get_matrix`, normalisation part: every cell divided by `max`. The source
   * divides with no zero guard, so the model asks for a positive `max`.
   */
  function Normalise(counts: seq<seq<nat>>, max: nat): (m: seq<seq<real>>)
    requires max > 0
    ensures |m| == |counts| && forall a :: 0 <= a < |m| ==> |m[a]| == |counts[a]|
    ensures forall a, b :: 0 <= a < |m| && 0 <= b < |m[a]| ==> m[a][b] * max as real == counts[a][b] as real
  {
    seq(|counts|, a requires 0 <= a < |counts| =>
        seq(|counts[a]|, b requires 0 <= b < |counts[a]| => counts[a][b] as real / max as real))
  }

  lemma DivideByMax(x: nat, max: nat)
    requires 0 < max && x <= max
    ensures 0.0 <= x as real / max as real <= 1.0
    ensures x == max ==> x as real / max as real == 1.0
  {
  }

  /** Dividing by the largest count puts every cell in `[0, 1]`, the largest at exactly 1. */
  lemma NormaliseByMax(counts: seq<seq<nat>>, max: nat)
    requires max > 0 && IsMaxCell(counts, max)
    ensures InUnitInterval(Normalise(counts, max))
    ensures HasUnitCell(Normalise(counts, max))
  {
    var m := Normalise(counts, max);
    forall a, b | 0 <= a < |m| && 0 <= b < |m[a]|
      ensures 0.0 <= m[a][b] <= 1.0
    {
      DivideByMax(counts[a][b], max);
    }
    var a, b :| 0 <= a < |counts| && 0 <= b < |counts[a]| && counts[a][b] == max;
    DivideByMax(counts[a][b], max);
    assert m[a][b] == 1.0;
  }

  /** Normalising keeps a symmetric matrix symmetric. */
  lemma NormaliseSymmetric(counts: seq<seq<nat>>, max: nat)
    requires max > 0 && IsSymmetric(counts)
    ensures IsSymmetric(Normalise(counts, max))
  {
  }

  /** A co-occurrence matrix together with its vocabulary and labels (`CoOccurrence`). */
  datatype CoOccurrence = CoOccurrence(matrix: seq<seq<real>>, words: seq<string>, labels: map<string, nat>)

  /** What construction guarantees: labels index the vocabulary and the matrix is vocabulary-square. */
  predicate Valid(c: CoOccurrence) {
    c.labels == Indexes(c.words) && IsSquare(c.matrix, |c.words|)
  }

  /**
   * `CoOccurrence::new`. For an empty vocabulary the source builds an empty
   * matrix, which the model returns too. Otherwise the source divides every
   * count by the maximum even when it is 0, which gives a matrix of NaN; the
   * model returns `None` in exactly that case.
   */
  method New(documents: seq<string>, words: seq<string>, windowSize: nat) returns (c: Option<CoOccurrence>)
    ensures c.None? <==> |words| > 0 && forall a, b :: 0 <= a < |words| && 0 <= b < |words| ==>
                           CorpusCount(documents, Indexes(words), windowSize, a, b) == 0
    ensures c.Some? ==> && Valid(c.value)
                        && c.value.words == words
                        && IsSymmetric(c.value.matrix)
                        && InUnitInterval(c.value.matrix)
    ensures |words| == 0 ==> c == Some(CoOccurrence([], [], map[]))
    ensures c.Some? && |words| > 0 ==> HasUnitCell(c.value.matrix)
    ensures c.Some? && |words| > 0 ==>
              exists max: nat :: && max > 0
                                 && IsMaxCell(CountMatrix(documents, Indexes(words), |words|, windowSize), max)
                                 && c.value.matrix == Normalise(CountMatrix(documents, Indexes(words), |words|, windowSize), max)
  {
    var labels := Indexes(words);
    if |words| == 0 {
      assert labels == map[];
      return Some(CoOccurrence([], words, labels));
    }
    var counts, max := CountCooccurrences(documents, labels, |words|, windowSize);
    if max == 0 {
      ZeroMaxNoCount(documents, labels, |words|, windowSize, counts);
      return None;
    }
    PositiveMaxSomeCount(documents, labels, |words|, windowSize, counts, max);
    NormaliseByMax(counts, max);
    NormaliseSymmetric(counts, max);
    c := Some(CoOccurrence(Normalise(counts, max), words, labels));
  }

  lemma ZeroMaxNoCount(documents: seq<string>, labels: map<string, nat>, n: nat, windowSize: nat, counts: seq<seq<nat>>)
    requires counts == CountMatrix(documents, labels, n, windowSize)
    requires IsMaxCell(counts, 0)
    ensures forall a, b :: 0 <= a < n && 0 <= b < n ==> CorpusCount(documents, labels, windowSize, a, b) == 0
  {
    forall a, b | 0 <= a < n && 0 <= b < n
      ensures CorpusCount(documents, labels, windowSize, a, b) == 0
    {
      assert counts[a][b] <= 0;
    }
  }

  lemma PositiveMaxSomeCount(documents: seq<string>, labels: map<string, nat>, n: nat, windowSize: nat,
                             counts: seq<seq<nat>>, max: nat)
    requires counts == CountMatrix(documents, labels, n, windowSize)
    requires IsMaxCell(counts, max) && max > 0
    ensures exists a, b :: 0 <= a < n && 0 <= b < n && CorpusCount(documents, labels, windowSize, a, b) != 0
  {
    var a, b :| 0 <= a < |counts| && 0 <= b < |counts[a]| && counts[a][b] == max;
    assert CorpusCount(documents, labels, windowSize, a, b) != 0;
  }

  /** `get_label`: the label of a vocabulary word. */
  function Label(c: CoOccurrence, word: string): (r: Option<nat>)
    requires Valid(c)
    ensures r.Some? <==> word in c.words
    ensures r.Some? ==> IsLastIndex(c.words, word, r.value)
  {
    if word in c.labels then Some(c.labels[word]) else None
  }

  /** `get_word`: the vocabulary word of a label. */
  function Word(c: CoOccurrence, id: nat): (r: Option<string>)
    ensures r.Some? <==> id < |c.words|
    ensures r.Some? ==> r.value == c.words[id]
  {
    if id < |c.words| then Some(c.words[id]) else None
  }

  /** Labels and words are inverse: the last occurrence of a duplicated word wins. */
  lemma LabelWordRoundTrip(c: CoOccurrence, word: string)
    requires Valid(c)
    requires word in c.words
    ensures Label(c, word).Some? && Word(c, Label(c, word).value) == Some(word)
  {
  }

  /** On a duplicate-free vocabulary every word's id is its position. */
  lemma LabelOfDistinctVocabulary(c: CoOccurrence, k: nat)
    requires Valid(c) && Distinct(c.words)
    requires k < |c.words|
    ensures Label(c, c.words[k]) == Some(k)
    ensures Word(c, k) == Some(c.words[k])
  {
    IndexesOfDistinct(c.words, k);
  }

  /** `get_relation`: the normalised strength between two words, `None` if either is unknown. */
  function Relation(c: CoOccurrence, word1: string, word2: string): (r: Option<real>)
    requires Valid(c)
    ensures r.None? <==> word1 !in c.words || word2 !in c.words
    ensures r.Some? ==> r.value == c.matrix[Label(c, word1).value][Label(c, word2).value]
  {
    match Label(c, word1)
    case None => None
    case Some(label1) =>
      match Label(c, word2)
      case None => None
      case Some(label2) => Some(c.matrix[label1][label2])
  }

  /** A symmetric matrix gives symmetric relations. */
  lemma RelationSymmetric(c: CoOccurrence, word1: string, word2: string)
    requires Valid(c) && IsSymmetric(c.matrix)
    ensures Relation(c, word1, word2) == Relation(c, word2, word1)
  {
  }

  /** `get_matrix_row`: a copy of a word's row, `None` if the word is unknown. */
  function MatrixRow(c: CoOccurrence, word: string): (r: Option<seq<real>>)
    requires Valid(c)
    ensures r.None? <==> word !in c.words
    ensures r.Some? ==> |r.value| == |c.words|
  {
    match Label(c, word)
    case None => None
    case Some(id) => Some(c.matrix[id])
  }

  /** The row of a word holds its relations to every other word, in id order. */
  lemma MatrixRowHoldsRelations(c: CoOccurrence, word: string, other: string)
    requires Valid(c)
    requires word in c.words && other in c.words
    ensures MatrixRow(c, word).value[Label(c, other).value] == Relation(c, word, other).value
  {
  }

  /** The positions of the positive values of `row`, increasing. */
  function PositiveIndices(row: seq<real>): (idx: seq<nat>)
    ensures forall k :: 0 <= k < |idx| ==> idx[k] < |row| && row[idx[k]] > 0.0
    ensures forall k, l :: 0 <= k < l < |idx| ==> idx[k] < idx[l]
    ensures forall i :: 0 <= i < |row| && row[i] > 0.0 ==> i in idx
  {
    if |row| == 0 then []
    else
      var init := PositiveIndices(row[..|row| - 1]);
      init + (if row[|row| - 1] > 0.0 then [|row| - 1] else [])
  }

  /** The `(word, value)` pairs of the positive cells of `row`, in id order. */
  function PositiveCells(words: seq<string>, row: seq<real>): (r: seq<(string, real)>)
    requires |row| <= |words|
    ensures var idx := PositiveIndices(row);
            |r| == |idx| && forall k :: 0 <= k < |r| ==> r[k] == (words[idx[k]], row[idx[k]])
  {
    if |row| == 0 then []
    else
      var last := |row| - 1;
      PositiveCells(words, row[..last]) + (if row[last] > 0.0 then [(words[last], row[last])] else [])
  }

  /** `get_relations`: the words a word relates to with positive strength, `None` if it is unknown. */
  function Relations(c: CoOccurrence, word: string): (r: Option<seq<(string, real)>>)
    requires Valid(c)
    ensures r.None? <==> word !in c.words
    ensures r.Some? ==> var row := MatrixRow(c, word).value;
                        var idx := PositiveIndices(row);
                        |r.value| == |idx| && forall k :: 0 <= k < |idx| ==> r.value[k] == (c.words[idx[k]], row[idx[k]])
  {
    match Label(c, word)
    case None => None
    case Some(id) => Some(PositiveCells(c.words, c.matrix[id]))
  }
}
