/**
 * Deterministic ranking of a score map (src/common/functions.rs).
 *
 * A map from words to scores is listed in the map's iteration order, sorted by
 * score descending with ties broken by ascending word, and cut to its first `n`
 * entries. The iteration order of a hash map is unspecified, so the model takes
 * it as an explicit enumeration `order` of the keys and proves that the result
 * does not depend on it.
 */
module Ranking {
  import opened Indexing

  datatype Ordering = Less | Equal | Greater

  /** A (word, score) pair of a score map. */
  type Entry = (string, real)

  /** `Ord for str`: lexicographic by character (byte order of UTF-8 agrees with code-point order). */
  function CompareStrings(a: string, b: string): Ordering {
    if |a| == 0 then (if |b| == 0 then Equal else Less)
    else if |b| == 0 then Greater
    else if a[0] < b[0] then Less
    else if a[0] > b[0] then Greater
    else CompareStrings(a[1..], b[1..])
  }

  /** `partial_cmp` on scores that are never NaN. */
  function CompareScores(a: real, b: real): Ordering {
    if a < b then Less else if a > b then Greater else Equal
  }

  /** The comparator handed to `sort_unstable_by`: the higher score first, then the smaller word. */
  function CompareEntries(a: Entry, b: Entry): Ordering {
    var order := CompareScores(b.1, a.1);
    if order == Equal then CompareStrings(a.0, b.0) else order
  }

  /** `a` is placed before `b`. */
  predicate Precedes(a: Entry, b: Entry) {
    CompareEntries(a, b) == Less
  }

  lemma {:induction false} CompareStringsEqual(a: string, b: string)
    ensures CompareStrings(a, b) == Equal <==> a == b
    decreases |a|
  {
    if |a| > 0 && |b| > 0 && a[0] == b[0] {
      CompareStringsEqual(a[1..], b[1..]);
      if a[1..] == b[1..] {
        assert a == [a[0]] + a[1..] && b == [b[0]] + b[1..];
      }
    }
  }

  lemma {:induction false} CompareStringsFlip(a: string, b: string)
    ensures CompareStrings(a, b) == Less <==> CompareStrings(b, a) == Greater
    decreases |a|
  {
    if |a| > 0 && |b| > 0 && a[0] == b[0] {
      CompareStringsFlip(a[1..], b[1..]);
    }
  }

  lemma {:induction false} CompareStringsTransitive(a: string, b: string, c: string)
    requires CompareStrings(a, b) == Less && CompareStrings(b, c) == Less
    ensures CompareStrings(a, c) == Less
    decreases |a|
  {
    if |a| > 0 && |b| > 0 && |c| > 0 && a[0] == b[0] && b[0] == c[0] {
      CompareStringsTransitive(a[1..], b[1..], c[1..]);
    }
  }

  /** The comparator never calls two entries with different words equal. */
  lemma EntriesEqualOnlyOnSameWord(a: Entry, b: Entry)
    ensures CompareEntries(a, b) == Equal <==> a == b
  {
    CompareStringsEqual(a.0, b.0);
  }

  /** The comparator is antisymmetric: it is a consistent `Ord`. */
  lemma EntriesFlip(a: Entry, b: Entry)
    ensures Precedes(a, b) <==> CompareEntries(b, a) == Greater
  {
    CompareStringsFlip(a.0, b.0);
  }

  /** Entries with different words are always ordered one way or the other. */
  lemma EntriesTotal(a: Entry, b: Entry)
    requires a.0 != b.0
    ensures Precedes(a, b) || Precedes(b, a)
  {
    EntriesEqualOnlyOnSameWord(a, b);
    EntriesFlip(b, a);
  }

  lemma EntriesTransitive(a: Entry, b: Entry, c: Entry)
    requires Precedes(a, b) && Precedes(b, c)
    ensures Precedes(a, c)
  {
    if a.1 == b.1 && b.1 == c.1 {
      CompareStringsTransitive(a.0, b.0, c.0);
    }
  }

  lemma EntriesIrreflexive(a: Entry)
    ensures !Precedes(a, a)
  {
    EntriesEqualOnlyOnSameWord(a, a);
  }

  /** Every entry strictly precedes every later one. */
  predicate Sorted(s: seq<Entry>) {
    forall i, j :: 0 <= i < j < |s| ==> Precedes(s[i], s[j])
  }

  /** The words of `s` are pairwise different. */
  predicate DistinctWords(s: seq<Entry>) {
    forall i, j :: 0 <= i < j < |s| ==> s[i].0 != s[j].0
  }

  /** `s` holds exactly the entries of `m`. */
  predicate ListsEntries(s: seq<Entry>, m: map<string, real>) {
    && (forall i :: 0 <= i < |s| ==> s[i].0 in m && m[s[i].0] == s[i].1)
    && (forall w :: w in m ==> (w, m[w]) in s)
  }

  /** Consecutive entries: the score does not increase and equal scores have strictly ascending words. */
  lemma SortedNeighbours(s: seq<Entry>, i: nat)
    requires Sorted(s)
    requires i + 1 < |s|
    ensures s[i].1 >= s[i + 1].1
    ensures s[i].1 == s[i + 1].1 ==> CompareStrings(s[i].0, s[i + 1].0) == Less
  {
    assert Precedes(s[i], s[i + 1]);
  }

  /** Inserts `e` at its place in the sorted `s`. */
  function Insert(e: Entry, s: seq<Entry>): (r: seq<Entry>)
    requires Sorted(s)
    requires forall i :: 0 <= i < |s| ==> s[i].0 != e.0
    ensures Sorted(r)
    ensures multiset(r) == multiset(s) + multiset{e}
  {
    if |s| == 0 then [e]
    else if Precedes(e, s[0]) then
      PrecedesAll(e, s);
      PrependSorted(e, s);
      [e] + s
    else
      EntriesTotal(e, s[0]);
      var rest := Insert(e, s[1..]);
      HeadPrecedesInsert(e, s, rest);
      PrependSorted(s[0], rest);
      assert s == [s[0]] + s[1..];
      [s[0]] + rest
  }

  /** An entry placed before the head of a sorted sequence is placed before all of it. */
  lemma PrecedesAll(e: Entry, s: seq<Entry>)
    requires Sorted(s) && |s| > 0
    requires Precedes(e, s[0])
    ensures forall j :: 0 <= j < |s| ==> Precedes(e, s[j])
  {
    forall j | 0 < j < |s| {
      EntriesTransitive(e, s[0], s[j]);
    }
  }

  lemma PrependSorted(x: Entry, t: seq<Entry>)
    requires Sorted(t)
    requires forall j :: 0 <= j < |t| ==> Precedes(x, t[j])
    ensures Sorted([x] + t)
  {
    var r := [x] + t;
    forall i, j | 0 <= i < j < |r|
      ensures Precedes(r[i], r[j])
    {
      if i > 0 {
        assert r[i] == t[i - 1] && r[j] == t[j - 1];
      }
    }
  }

  /** The head of `s` precedes everything inserting `e` into the rest of `s` yields. */
  lemma HeadPrecedesInsert(e: Entry, s: seq<Entry>, rest: seq<Entry>)
    requires Sorted(s) && |s| > 0
    requires Precedes(s[0], e)
    requires multiset(rest) == multiset(s[1..]) + multiset{e}
    ensures forall j :: 0 <= j < |rest| ==> Precedes(s[0], rest[j])
  {
    forall j | 0 <= j < |rest|
      ensures Precedes(s[0], rest[j])
    {
      assert rest[j] in multiset(rest);
      if rest[j] != e {
        assert rest[j] in multiset(s[1..]);
        var k :| 0 <= k < |s[1..]| && s[1..][k] == rest[j];
        assert Precedes(s[0], s[k + 1]);
      }
    }
  }

  /** Insertion sort of entries with distinct words. */
  function SortEntries(es: seq<Entry>): (r: seq<Entry>)
    requires DistinctWords(es)
    ensures Sorted(r)
    ensures multiset(r) == multiset(es)
  {
    if |es| == 0 then []
    else
      var init := es[..|es| - 1];
      var sorted := SortEntries(init);
      assert forall i :: 0 <= i < |sorted| ==> sorted[i].0 != es[|es| - 1].0 by {
        forall i | 0 <= i < |sorted|
          ensures sorted[i].0 != es[|es| - 1].0
        {
          assert sorted[i] in multiset(init);
          var k :| 0 <= k < |init| && init[k] == sorted[i];
          assert es[k].0 != es[|es| - 1].0;
        }
      }
      assert es == init + [es[|es| - 1]];
      Insert(es[|es| - 1], sorted)
  }

  /** The entries of `m`, one per key, listed in the iteration order `order`. */
  function EntriesInOrder(m: map<string, real>, order: seq<string>): (es: seq<Entry>)
    requires Enumerates(order, m.Keys)
    ensures |es| == |order| && ListsEntries(es, m) && DistinctWords(es)
  {
    var es := seq(|order|, i requires 0 <= i < |order| => (order[i], m[order[i]]));
    assert forall w :: w in m ==> (w, m[w]) in es by {
      forall w | w in m
        ensures (w, m[w]) in es
      {
        var i :| 0 <= i < |order| && order[i] == w;
        assert es[i] == (w, m[w]);
      }
    }
    es
  }

  /** A permutation has the same length and the same members. */
  lemma PermutationMembers(a: seq<Entry>, b: seq<Entry>)
    requires multiset(a) == multiset(b)
    ensures |a| == |b|
    ensures forall e :: e in a <==> e in b
  {
    assert |a| == |multiset(a)| == |multiset(b)| == |b|;
    forall e
      ensures e in a <==> e in b
    {
      assert e in a <==> e in multiset(a);
      assert e in b <==> e in multiset(b);
    }
  }

  /** Listing the entries of a map is a statement about members only. */
  lemma ListsEntriesByMembers(a: seq<Entry>, b: seq<Entry>, m: map<string, real>)
    requires ListsEntries(a, m)
    requires forall e :: e in a <==> e in b
    ensures ListsEntries(b, m)
  {
    forall i | 0 <= i < |b|
      ensures b[i].0 in m && m[b[i].0] == b[i].1
    {
      assert b[i] in a;
    }
  }

  /** Two listings of the same map have the same members. */
  lemma ListingsAgree(a: seq<Entry>, b: seq<Entry>, m: map<string, real>)
    requires ListsEntries(a, m) && ListsEntries(b, m)
    ensures forall e :: e in a <==> e in b
  {
    forall e
      ensures e in a ==> e in b
      ensures e in b ==> e in a
    {
      if e in a {
        var i :| 0 <= i < |a| && a[i] == e;
      }
      if e in b {
        var i :| 0 <= i < |b| && b[i] == e;
      }
    }
  }

  /** `sort_ranked_map`: the entries of `m`, best first. */
  function SortRankedMap(m: map<string, real>, order: seq<string>): (r: seq<Entry>)
    requires Enumerates(order, m.Keys)
    ensures |r| == |m|
    ensures Sorted(r)
    ensures ListsEntries(r, m)
  {
    var es := EntriesInOrder(m, order);
    var r := SortEntries(es);
    PermutationMembers(es, r);
    ListsEntriesByMembers(es, r, m);
    EnumerationSize(order, m.Keys);
    r
  }

  /** Two sorted sequences with the same entries are the same sequence. */
  lemma {:induction false} SortedUnique(a: seq<Entry>, b: seq<Entry>)
    requires Sorted(a) && Sorted(b)
    requires |a| == |b|
    requires forall e :: e in a <==> e in b
    ensures a == b
    decreases |a|
  {
    if |a| > 0 {
      assert a[0] in b;
      if a[0] != b[0] {
        assert b[0] in b;
        var j :| 0 <= j < |b| && b[j] == a[0];
        var i :| 0 <= i < |a| && a[i] == b[0];
        if j == 0 || i == 0 {
          assert false;
        }
        assert Precedes(b[0], a[0]);
        assert Precedes(a[0], b[0]);
        EntriesTransitive(a[0], b[0], a[0]);
        EntriesIrreflexive(a[0]);
        assert false;
      }
      assert forall e :: e in a[1..] <==> e in b[1..] by {
        forall e
          ensures e in a[1..] <==> e in b[1..]
        {
          if e in a[1..] {
            var i :| 0 <= i < |a[1..]| && a[1..][i] == e;
            assert Precedes(a[0], a[i + 1]);
            EntriesIrreflexive(a[0]);
            assert e in b && e != b[0];
          }
          if e in b[1..] {
            var i :| 0 <= i < |b[1..]| && b[1..][i] == e;
            assert Precedes(b[0], b[i + 1]);
            EntriesIrreflexive(b[0]);
            assert e in a && e != a[0];
          }
        }
      }
      SortedUnique(a[1..], b[1..]);
      assert a == [a[0]] + a[1..] && b == [b[0]] + b[1..];
    }
  }

  /** The ranking does not depend on the map's iteration order. */
  lemma SortRankedMapDeterministic(m: map<string, real>, order1: seq<string>, order2: seq<string>)
    requires Enumerates(order1, m.Keys) && Enumerates(order2, m.Keys)
    ensures SortRankedMap(m, order1) == SortRankedMap(m, order2)
  {
    var a := SortRankedMap(m, order1);
    var b := SortRankedMap(m, order2);
    ListingsAgree(a, b, m);
    SortedUnique(a, b);
  }

  function Min(a: nat, b: nat): nat {
    if a < b then a else b
  }

  /** A prefix of a sorted listing holds the best entries of the map. */
  lemma SortedPrefix(s: seq<Entry>, k: nat, m: map<string, real>)
    requires Sorted(s) && ListsEntries(s, m)
    requires k <= |s|
    ensures Sorted(s[..k])
    ensures forall i :: 0 <= i < k ==> s[i].0 in m && m[s[i].0] == s[i].1
    ensures forall w :: w in m && (w, m[w]) !in s[..k] ==>
              forall i :: 0 <= i < k ==> Precedes(s[i], (w, m[w]))
  {
    forall w, i | w in m && (w, m[w]) !in s[..k] && 0 <= i < k
      ensures Precedes(s[i], (w, m[w]))
    {
      var j :| 0 <= j < |s| && s[j] == (w, m[w]);
    }
  }

  /** `get_ranked_scores(map, n)`: the first `n` entries of the ranking. */
  function RankedScores(m: map<string, real>, order: seq<string>, n: nat): (r: seq<Entry>)
    requires Enumerates(order, m.Keys)
    ensures |r| == Min(n, |m|)
    ensures n == 0 ==> r == []
    ensures Sorted(r)
    ensures forall i :: 0 <= i < |r| ==> r[i].0 in m && m[r[i].0] == r[i].1
    ensures forall w :: w in m && (w, m[w]) !in r ==>
              forall i :: 0 <= i < |r| ==> Precedes(r[i], (w, m[w]))
  {
    var sorted := SortRankedMap(m, order);
    var r := sorted[..Min(n, |sorted|)];
    SortedPrefix(sorted, |r|, m);
    r
  }

  /** The words of a sequence of entries. */
  function Words(s: seq<Entry>): (ws: seq<string>)
    ensures |ws| == |s| && forall i :: 0 <= i < |s| ==> ws[i] == s[i].0
  {
    seq(|s|, i requires 0 <= i < |s| => s[i].0)
  }

  /** `get_ranked_strings(map, n)`: the words of the first `n` entries of the ranking. */
  function RankedStrings(m: map<string, real>, order: seq<string>, n: nat): (r: seq<string>)
    requires Enumerates(order, m.Keys)
    ensures |r| == Min(n, |m|)
    ensures Distinct(r)
    ensures forall i :: 0 <= i < |r| ==> r[i] in m
    ensures forall i, j :: 0 <= i < j < |r| ==> Precedes((r[i], m[r[i]]), (r[j], m[r[j]]))
    ensures forall w :: w in m && w !in r ==>
              forall i :: 0 <= i < |r| ==> Precedes((r[i], m[r[i]]), (w, m[w]))
  {
    var s := RankedScores(m, order, n);
    RankedWords(s, m);
    Words(s)
  }

  /** The words of a sorted listing of the best entries of `m`. */
  lemma RankedWords(s: seq<Entry>, m: map<string, real>)
    requires Sorted(s)
    requires forall i :: 0 <= i < |s| ==> s[i].0 in m && m[s[i].0] == s[i].1
    requires forall w :: w in m && (w, m[w]) !in s ==>
               forall i :: 0 <= i < |s| ==> Precedes(s[i], (w, m[w]))
    ensures Distinct(Words(s))
    ensures forall i :: 0 <= i < |s| ==> Words(s)[i] in m
    ensures forall i, j :: 0 <= i < j < |s| ==> Precedes((Words(s)[i], m[Words(s)[i]]), (Words(s)[j], m[Words(s)[j]]))
    ensures forall w :: w in m && w !in Words(s) ==>
              forall i :: 0 <= i < |s| ==> Precedes((Words(s)[i], m[Words(s)[i]]), (w, m[w]))
  {
    var r := Words(s);
    assert forall i :: 0 <= i < |r| ==> s[i] == (r[i], m[r[i]]);
    forall i, j | 0 <= i < j < |r|
      ensures r[i] != r[j]
    {
      EntriesIrreflexive(s[i]);
    }
    assert forall w :: w in m && w !in r ==> (w, m[w]) !in s;
  }

  /** The ranked strings are the words of the ranked scores. */
  lemma RankedStringsAreRankedScoreWords(m: map<string, real>, order: seq<string>, n: nat)
    requires Enumerates(order, m.Keys)
    ensures RankedStrings(m, order, n) == Words(RankedScores(m, order, n))
  {
  }

  /** Top-n results are the same whichever iteration order the map had. */
  lemma RankedDeterministic(m: map<string, real>, order1: seq<string>, order2: seq<string>, n: nat)
    requires Enumerates(order1, m.Keys) && Enumerates(order2, m.Keys)
    ensures RankedScores(m, order1, n) == RankedScores(m, order2, n)
    ensures RankedStrings(m, order1, n) == RankedStrings(m, order2, n)
  {
    SortRankedMapDeterministic(m, order1, order2);
  }

  /** `rank({"a": 1.0, "b": 1.0}, 2)` lists `a` before `b`, whatever the iteration order. */
  lemma TieBrokenByWord()
    ensures RankedScores(map["a" := 1.0, "b" := 1.0], ["b", "a"], 2) == [("a", 1.0), ("b", 1.0)]
  {
    var m := map["a" := 1.0, "b" := 1.0];
    var r := RankedScores(m, ["b", "a"], 2);
    var expected := [("a", 1.0), ("b", 1.0)];
    assert Precedes(("a", 1.0), ("b", 1.0));
    assert Sorted(expected);
    assert |r| == 2;
    assert forall e :: e in r <==> e in expected by {
      forall e
        ensures e in r <==> e in expected
      {
        if e in r {
          var i :| 0 <= i < |r| && r[i] == e;
          assert e.0 in m;
        }
        if e in expected {
          assert e.0 in m && m[e.0] == e.1;
        }
      }
    }
    SortedUnique(r, expected);
  }
}
