/**
 * Sequences enumerated into position maps.
 *
 * Both `create_words_indexes` (co-occurrence labels) and `get_node_indexes`
 * (TextRank node positions) collect `(item, position)` pairs into a hash map,
 * so a later occurrence of the same item overwrites an earlier one.
 */
module Indexing {

  /** No item occurs twice. */
  predicate Distinct(s: seq<string>) {
    forall i, j :: 0 <= i < j < |s| ==> s[i] != s[j]
  }

  /** `s` lists every element of `keys` exactly once: a hash map's iteration order. */
  predicate Enumerates(s: seq<string>, keys: set<string>) {
    && Distinct(s)
    && (forall x :: x in keys ==> x in s)
    && (forall i :: 0 <= i < |s| ==> s[i] in keys)
  }

  /** `i` is the last position of `s` holding `x`. */
  predicate IsLastIndex(s: seq<string>, x: string, i: nat) {
    i < |s| && s[i] == x && forall j :: i < j < |s| ==> s[j] != x
  }

  /** The map from each item to its position, a later duplicate overwriting an earlier one: every item to its last position. */
  function Indexes(s: seq<string>): (labels: map<string, nat>)
    ensures forall x :: x in labels <==> x in s
    ensures forall x :: x in labels ==> IsLastIndex(s, x, labels[x])
  {
    if |s| == 0 then map[]
    else
      var init := Indexes(s[..|s| - 1]);
      assert forall x :: x in s <==> x in s[..|s| - 1] || x == s[|s| - 1];
      init[s[|s| - 1] := |s| - 1]
  }

  /** On a duplicate-free sequence the index map inverts positional access. */
  lemma IndexesOfDistinct(s: seq<string>, k: nat)
    requires Distinct(s)
    requires k < |s|
    ensures s[k] in Indexes(s) && Indexes(s)[s[k]] == k
  {
  }

  /** An enumeration has exactly one position per key. */
  lemma {:induction false} EnumerationSize(s: seq<string>, keys: set<string>)
    requires Enumerates(s, keys)
    ensures |s| == |keys|
    decreases |s|
  {
    if |s| > 0 {
      var last := s[|s| - 1];
      var init := s[..|s| - 1];
      assert Enumerates(init, keys - {last}) by {
        forall x
          ensures x in keys - {last} <==> x in init
        {
          if x in init {
            var i :| 0 <= i < |init| && init[i] == x;
            assert s[i] != s[|s| - 1];
          }
          if x in keys && x != last {
            assert x in s;
            var i :| 0 <= i < |s| && s[i] == x;
            assert i < |s| - 1;
            assert init[i] == x;
          }
        }
      }
      EnumerationSize(init, keys - {last});
      assert last in keys;
    }
  }
}
