/**
 * Whitespace splitting, the tokenisation every core component applies to its
 * input strings (`str::split_whitespace` in the source), and the single-space
 * joining the phrase chunker uses to build phrases.
 */
module Text {

  /** The Unicode White_Space characters, the class `char::is_whitespace` tests. */
  predicate IsWhitespace(c: char) {
    || ('\U{9}' <= c <= '\U{D}')
    || c == ' '
    || c == '\U{85}'
    || c == '\U{A0}'
    || c == '\U{1680}'
    || ('\U{2000}' <= c <= '\U{200A}')
    || c == '\U{2028}'
    || c == '\U{2029}'
    || c == '\U{202F}'
    || c == '\U{205F}'
    || c == '\U{3000}'
  }

  /** No whitespace character occurs in `s`. */
  predicate Solid(s: string) {
    forall i :: 0 <= i < |s| ==> !IsWhitespace(s[i])
  }

  /** A word as `split_whitespace` yields it: a non-empty run of non-whitespace characters. */
  predicate IsWord(s: string) {
    |s| > 0 && Solid(s)
  }

  /** The pending word `cur`, if there is one. */
  function Flush(cur: string): seq<string> {
    if |cur| == 0 then [] else [cur]
  }

  /** Splits `s` on whitespace runs, `cur` being the word read so far. */
  function SplitFrom(s: string, cur: string): (words: seq<string>)
    requires Solid(cur)
    ensures forall k :: 0 <= k < |words| ==> IsWord(words[k])
    decreases |s|
  {
    if |s| == 0 then Flush(cur)
    else if IsWhitespace(s[0]) then Flush(cur) + SplitFrom(s[1..], [])
    else SplitFrom(s[1..], cur + [s[0]])
  }

  /** The whitespace split of `s`: the maximal runs of non-whitespace characters, in order. */
  function SplitWhitespace(s: string): (words: seq<string>)
    ensures forall k :: 0 <= k < |words| ==> IsWord(words[k])
  {
    SplitFrom(s, [])
  }

  /** The number of words in the whitespace split of `s`. */
  function WordCount(s: string): nat {
    |SplitWhitespace(s)|
  }

  /** The words of `ws` separated by single spaces, built left to right as the phrase chunker does. */
  function Join(ws: seq<string>): string {
    if |ws| == 0 then ""
    else if |ws| == 1 then ws[0]
    else Join(ws[..|ws| - 1]) + " " + ws[|ws| - 1]
  }

  /** A whitespace character separates: splitting `x c y` splits `x` and `y` apart. */
  lemma {:induction false} SplitFromSeparator(x: string, c: char, y: string, cur: string)
    requires Solid(cur)
    requires IsWhitespace(c)
    ensures SplitFrom(x + [c] + y, cur) == SplitFrom(x, cur) + SplitFrom(y, [])
    decreases |x|
  {
    var s := x + [c] + y;
    if |x| == 0 {
      assert s[0] == c && s[1..] == y;
    } else {
      assert s[0] == x[0] && s[1..] == x[1..] + [c] + y;
      if IsWhitespace(x[0]) {
        SplitFromSeparator(x[1..], c, y, []);
      } else {
        SplitFromSeparator(x[1..], c, y, cur + [x[0]]);
      }
    }
  }

  /** Splitting around a whitespace character. */
  lemma SplitSeparator(x: string, c: char, y: string)
    requires IsWhitespace(c)
    ensures SplitWhitespace(x + [c] + y) == SplitWhitespace(x) + SplitWhitespace(y)
  {
    SplitFromSeparator(x, c, y, []);
  }

  /** Reading a solid run extends the pending word. */
  lemma {:induction false} SplitFromSolid(w: string, cur: string)
    requires Solid(cur)
    requires Solid(w)
    ensures SplitFrom(w, cur) == Flush(cur + w)
    decreases |w|
  {
    if |w| == 0 {
      assert cur + w == cur;
    } else {
      assert !IsWhitespace(w[0]);
      SplitFromSolid(w[1..], cur + [w[0]]);
      assert cur + [w[0]] + w[1..] == cur + w;
    }
  }

  /** A single word splits to itself. */
  lemma SplitWord(w: string)
    requires IsWord(w)
    ensures SplitWhitespace(w) == [w]
  {
    SplitFromSolid(w, []);
    assert [] + w == w;
  }

  /** The empty string holds no word. */
  lemma SplitEmpty()
    ensures SplitWhitespace("") == []
  {
  }

  /** Appending a separator and a word adds exactly that word: the phrase-accumulation step. */
  lemma SplitAppendWord(acc: string, w: string)
    requires IsWord(w)
    ensures SplitWhitespace(acc + " " + w) == SplitWhitespace(acc) + [w]
  {
    SplitSeparator(acc, ' ', w);
    assert acc + " " + w == acc + [' '] + w;
    SplitWord(w);
  }

  /** Round trip: splitting the single-space join of words gives the words back. */
  lemma {:induction false} SplitJoin(ws: seq<string>)
    requires forall k :: 0 <= k < |ws| ==> IsWord(ws[k])
    ensures SplitWhitespace(Join(ws)) == ws
    decreases |ws|
  {
    if |ws| == 1 {
      SplitWord(ws[0]);
    } else if |ws| > 1 {
      var init := ws[..|ws| - 1];
      SplitJoin(init);
      SplitAppendWord(Join(init), ws[|ws| - 1]);
      assert init + [ws[|ws| - 1]] == ws;
    }
  }
}
