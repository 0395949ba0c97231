/**
 * TextRank graph construction and scoring (src/text_rank/text_rank_logic.rs).
 *
 * Every word is joined to each of the next `windowSize` words by an undirected
 * edge, added in both directions; repeated pairs add up and a word is never
 * joined to itself. Scores follow the damped, weighted PageRank update, and a
 * phrase scores the mean of its words' scores. Edge weights are counts (`nat`);
 * sums and scores are `real`.
 */
module TextRank {
  import opened Indexing
  import opened Text
  import opened Sums

  /** The neighbours of a node and the weight of the edge to each. */
  type Edges = map<string, nat>

  /** The word graph: every node to its edges. */
  type Graph = map<string, Edges>

  /** The weight of the edge from `x` to `y`, 0 when there is none. */
  function Weight(g: Graph, x: string, y: string): nat {
    if x in g && y in g[x] then g[x][y] else 0
  }

  /** Every node has an edge and every stored weight is at least 1. */
  predicate WellFormed(g: Graph) {
    forall x :: x in g ==> |g[x]| > 0 && forall y :: y in g[x] ==> g[x][y] >= 1
  }

  /** Every edge has the same weight in both directions. */
  ghost predicate Symmetric(g: Graph) {
    forall x, y :: Weight(g, x, y) == Weight(g, y, x)
  }

  /** A well-formed graph has a node exactly where some edge leaves it. */
  lemma NodeHasEdge(g: Graph, x: string)
    requires WellFormed(g)
    ensures x in g <==> exists y :: Weight(g, x, y) > 0
  {
    if x in g {
      var y :| y in g[x];
      assert Weight(g, x, y) > 0;
    }
  }

  /** `add_edge`: one more unit of weight on the edge from `word1` to `word2`, nothing else changes. */
  function AddEdge(g: Graph, word1: string, word2: string): (r: Graph)
    ensures forall x, y :: Weight(r, x, y) == Weight(g, x, y) + (if x == word1 && y == word2 then 1 else 0)
    ensures r.Keys == g.Keys + {word1}
    ensures WellFormed(g) ==> WellFormed(r)
  {
    var edges := if word1 in g then g[word1] else map[];
    var r := g[word1 := edges[word2 := (if word2 in edges then edges[word2] else 0) + 1]];
    AddEdgeWellFormed(g, word1, word2, r);
    AddEdgeWeights(g, word1, word2, r);
    r
  }

  lemma AddEdgeWeights(g: Graph, word1: string, word2: string, r: Graph)
    requires var edges := if word1 in g then g[word1] else map[];
             r == g[word1 := edges[word2 := (if word2 in edges then edges[word2] else 0) + 1]]
    ensures forall x, y :: Weight(r, x, y) == Weight(g, x, y) + (if x == word1 && y == word2 then 1 else 0)
  {
    forall x, y
      ensures Weight(r, x, y) == Weight(g, x, y) + (if x == word1 && y == word2 then 1 else 0)
    {
      if x != word1 {
        assert x in r <==> x in g;
        if x in g { assert r[x] == g[x]; }
      }
    }
  }

  lemma AddEdgeWellFormed(g: Graph, word1: string, word2: string, r: Graph)
    requires var edges := if word1 in g then g[word1] else map[];
             r == g[word1 := edges[word2 := (if word2 in edges then edges[word2] else 0) + 1]]
    ensures WellFormed(g) ==> WellFormed(r)
  {
    if WellFormed(g) {
      forall x | x in r
        ensures |r[x]| > 0 && forall y :: y in r[x] ==> r[x][y] >= 1
      {
        if x == word1 {
          assert word2 in r[x];
        }
      }
    }
  }

  /** Positions `i < j <= i + windowSize` hold the two different words `x` and `y`, in either order. */
  predicate IsPair(words: seq<string>, windowSize: nat, i: nat, j: nat, x: string, y: string) {
    && i < j <= i + windowSize
    && j < |words|
    && x != y
    && ((words[i] == x && words[j] == y) || (words[i] == y && words[j] == x))
  }

  /** Pairs `(i, j)` with `j < hi`. */
  function RowPairs(words: seq<string>, windowSize: nat, i: nat, hi: nat, x: string, y: string): nat {
    if hi == 0 then 0
    else RowPairs(words, windowSize, i, hi - 1, x, y) + (if IsPair(words, windowSize, i, hi - 1, x, y) then 1 else 0)
  }

  /** Pairs `(i, j)` with `i < rows`. */
  function PairsBefore(words: seq<string>, windowSize: nat, rows: nat, x: string, y: string): nat {
    if rows == 0 then 0
    else PairsBefore(words, windowSize, rows - 1, x, y) + RowPairs(words, windowSize, rows - 1, |words|, x, y)
  }

  /** The number of forward-window position pairs holding `x` and `y`: the weight the graph should carry. */
  function PairCount(words: seq<string>, windowSize: nat, x: string, y: string): nat {
    PairsBefore(words, windowSize, |words|, x, y)
  }

  lemma {:induction false} RowPairsSymmetric(words: seq<string>, windowSize: nat, i: nat, hi: nat, x: string, y: string)
    ensures RowPairs(words, windowSize, i, hi, x, y) == RowPairs(words, windowSize, i, hi, y, x)
  {
    if hi > 0 {
      RowPairsSymmetric(words, windowSize, i, hi - 1, x, y);
    }
  }

  /** The pair count does not depend on the order of the two words. */
  lemma {:induction false} PairCountSymmetric(words: seq<string>, windowSize: nat, rows: nat, x: string, y: string)
    ensures PairsBefore(words, windowSize, rows, x, y) == PairsBefore(words, windowSize, rows, y, x)
  {
    if rows > 0 {
      PairCountSymmetric(words, windowSize, rows - 1, x, y);
      RowPairsSymmetric(words, windowSize, rows - 1, |words|, x, y);
    }
  }

  lemma {:induction false} RowPairsNone(words: seq<string>, windowSize: nat, i: nat, hi: nat, x: string, y: string)
    requires forall j: nat :: !IsPair(words, windowSize, i, j, x, y)
    ensures RowPairs(words, windowSize, i, hi, x, y) == 0
  {
    if hi > 0 {
      RowPairsNone(words, windowSize, i, hi - 1, x, y);
    }
  }

  lemma {:induction false} PairsBeforeNone(words: seq<string>, windowSize: nat, rows: nat, x: string, y: string)
    requires forall i: nat, j: nat :: !IsPair(words, windowSize, i, j, x, y)
    ensures PairsBefore(words, windowSize, rows, x, y) == 0
  {
    if rows > 0 {
      PairsBeforeNone(words, windowSize, rows - 1, x, y);
      RowPairsNone(words, windowSize, rows - 1, |words|, x, y);
    }
  }

  /** A word never pairs with itself, and with `window_size = 0` nothing pairs at all. */
  lemma NoSelfPairs(words: seq<string>, windowSize: nat, x: string, y: string)
    requires x == y || windowSize == 0
    ensures PairCount(words, windowSize, x, y) == 0
  {
    PairsBeforeNone(words, windowSize, |words|, x, y);
  }

  /** Pairs of row `i` lie strictly after `i` and no further than the window. */
  lemma {:induction false} RowPairsOutside(words: seq<string>, windowSize: nat, i: nat, lo: nat, hi: nat, x: string, y: string)
    requires lo <= hi
    requires hi <= i + 1 || i + windowSize < lo || |words| <= lo
    ensures RowPairs(words, windowSize, i, hi, x, y) == RowPairs(words, windowSize, i, lo, x, y)
    decreases hi
  {
    if hi > lo {
      RowPairsOutside(words, windowSize, i, lo, hi - 1, x, y);
    }
  }

  /** A visited pair: an edge in both directions, unless the two words are the same. */
  function AddPair(g: Graph, word1: string, word2: string): (r: Graph)
    ensures forall x, y :: Weight(r, x, y) == Weight(g, x, y)
              + (if x != y && ((word1 == x && word2 == y) || (word1 == y && word2 == x)) then 1 else 0)
    ensures WellFormed(g) ==> WellFormed(r)
  {
    if word1 == word2 then g else AddEdge(AddEdge(g, word1, word2), word2, word1)
  }

  lemma RowPairsStep(words: seq<string>, windowSize: nat, i: nat, j: nat, x: string, y: string)
    requires i < j <= i + windowSize && j < |words|
    ensures RowPairs(words, windowSize, i, j + 1, x, y)
            == RowPairs(words, windowSize, i, j, x, y)
               + (if x != y && ((words[i] == x && words[j] == y) || (words[i] == y && words[j] == x)) then 1 else 0)
  {
  }

  /**
   * One row of `create_graph`: word `i` and each of the next `windowSize` words,
   * when they differ, add an edge in both directions.
   */
  method AddWindowEdges(g: Graph, words: seq<string>, windowSize: nat, i: nat) returns (g': Graph)
    requires i < |words|
    requires WellFormed(g)
    ensures WellFormed(g')
    ensures forall x, y :: Weight(g', x, y) == Weight(g, x, y) + RowPairs(words, windowSize, i, |words|, x, y)
  {
    g' := g;
    // The partners of position `i` are the at most `windowSize` positions after it.
    var last := if i + 1 + windowSize < |words| then i + 1 + windowSize else |words|;
    var j := i + 1;
    forall x, y
      ensures RowPairs(words, windowSize, i, j, x, y) == 0
    {
      RowPairsOutside(words, windowSize, i, 0, j, x, y);
    }
    while j < last
      invariant i + 1 <= j <= last
      invariant WellFormed(g')
      invariant forall x, y :: Weight(g', x, y) == Weight(g, x, y) + RowPairs(words, windowSize, i, j, x, y)
    {
      g' := AddPair(g', words[i], words[j]);
      forall x, y
        ensures Weight(g', x, y) == Weight(g, x, y) + RowPairs(words, windowSize, i, j + 1, x, y)
      {
        RowPairsStep(words, windowSize, i, j, x, y);
      }
      j := j + 1;
    }
    forall x, y
      ensures RowPairs(words, windowSize, i, |words|, x, y) == RowPairs(words, windowSize, i, last, x, y)
    {
      RowPairsOutside(words, windowSize, i, last, |words|, x, y);
    }
  }

  /** `create_graph`: the weighted, undirected word graph of the forward windows. */
  method CreateGraph(words: seq<string>, windowSize: nat) returns (g: Graph)
    ensures WellFormed(g)
    ensures forall x, y :: Weight(g, x, y) == PairCount(words, windowSize, x, y)
    ensures Symmetric(g)
    ensures forall x :: x in g ==> x !in g[x]
    ensures forall x :: x in g ==> x in words
    ensures windowSize == 0 ==> g == map[]
  {
    g := map[];
    var i := 0;
    while i < |words|
      invariant 0 <= i <= |words|
      invariant WellFormed(g)
      invariant forall x, y :: Weight(g, x, y) == PairsBefore(words, windowSize, i, x, y)
    {
      g := AddWindowEdges(g, words, windowSize, i);
      i := i + 1;
    }
    GraphShape(g, words, windowSize);
  }

  /** Consequences of carrying exactly the pair counts. */
  lemma GraphShape(g: Graph, words: seq<string>, windowSize: nat)
    requires WellFormed(g)
    requires forall x, y :: Weight(g, x, y) == PairCount(words, windowSize, x, y)
    ensures Symmetric(g)
    ensures forall x :: x in g ==> x !in g[x]
    ensures forall x :: x in g ==> x in words
    ensures windowSize == 0 ==> g == map[]
  {
    forall x, y
      ensures Weight(g, x, y) == Weight(g, y, x)
    {
      PairCountSymmetric(words, windowSize, |words|, x, y);
    }
    forall x | x in g
      ensures x !in g[x]
      ensures x in words
    {
      NoSelfPairs(words, windowSize, x, x);
      var y :| y in g[x];
      assert Weight(g, x, y) > 0;
      if x !in words {
        PairsBeforeNone(words, windowSize, |words|, x, y);
      }
    }
    if windowSize == 0 && g != map[] {
      var x :| x in g;
      var y :| y in g[x];
      NoSelfPairs(words, windowSize, x, y);
    }
  }

  /** Every edge leads to a node, so `node_indexes[neighbor]` is always defined. */
  predicate Closed(g: Graph) {
    forall x, y :: x in g && y in g[x] ==> y in g
  }

  lemma SymmetricClosed(g: Graph)
    requires WellFormed(g) && Symmetric(g)
    ensures Closed(g)
  {
    forall x, y | x in g && y in g[x]
      ensures y in g
    {
      assert Weight(g, y, x) == Weight(g, x, y) > 0;
    }
  }

  // ---------------------------------------------------------------------------
  // Outgoing weight sums
  // ---------------------------------------------------------------------------

  /** The weights of one edge map as a function on words, 0 where there is no edge. */
  function WeightOf(edges: Edges): string -> real {
    y => if y in edges then edges[y] as real else 0.0
  }

  /** The total weight of the edges leaving `x`. */
  ghost function OutSum(g: Graph, x: string): real {
    if x in g then SumOver(g[x].Keys, WeightOf(g[x])) else 0.0
  }

  /** The sum of a node's edge weights, independent of the order the map yields them in. */
  method SumWeights(edges: Edges) returns (total: real)
    ensures total == SumOver(edges.Keys, WeightOf(edges))
  {
    total := 0.0;
    var rest := edges.Keys;
    while rest != {}
      invariant rest <= edges.Keys
      invariant total + SumOver(rest, WeightOf(edges)) == SumOver(edges.Keys, WeightOf(edges))
      decreases |rest|
    {
      var y :| y in rest;
      SumOverRemove(rest, WeightOf(edges), y);
      total := total + edges[y] as real;
      rest := rest - {y};
    }
  }

  /** A node of a well-formed graph has an edge of weight at least 1, so its sum is at least 1. */
  lemma OutSumAtLeastOne(g: Graph, x: string)
    requires WellFormed(g)
    requires x in g
    ensures OutSum(g, x) >= 1.0
  {
    var y :| y in g[x];
    SumOverAtLeast(g[x].Keys, WeightOf(g[x]), y);
  }

  lemma OutSumsAtLeastOne(g: Graph, sums: map<string, real>)
    requires WellFormed(g)
    requires forall x :: x in sums <==> x in g
    requires forall x :: x in sums ==> sums[x] == OutSum(g, x)
    ensures forall x :: x in sums ==> sums[x] >= 1.0
  {
    forall x | x in sums
      ensures sums[x] >= 1.0
    {
      OutSumAtLeastOne(g, x);
    }
  }

  /** `get_outgoing_weight_sum`: every node to the total weight leaving it. */
  method GetOutgoingWeightSum(g: Graph) returns (sums: map<string, real>)
    ensures forall x :: x in sums <==> x in g
    ensures forall x :: x in sums ==> sums[x] == OutSum(g, x)
    ensures WellFormed(g) ==> forall x :: x in sums ==> sums[x] >= 1.0
  {
    sums := CollectOutSums(g);
    if WellFormed(g) {
      OutSumsAtLeastOne(g, sums);
    }
  }

  method CollectOutSums(g: Graph) returns (sums: map<string, real>)
    ensures sums.Keys == g.Keys
    ensures forall x :: x in sums ==> sums[x] == OutSum(g, x)
  {
    sums := map[];
    var rest := g.Keys;
    while rest != {}
      invariant rest <= g.Keys
      invariant sums.Keys == g.Keys - rest
      invariant forall x :: x in sums ==> sums[x] == OutSum(g, x)
      decreases |rest|
    {
      var x :| x in rest;
      var total := SumWeights(g[x]);
      sums := sums[x := total];
      rest := rest - {x};
    }
  }

  // ---------------------------------------------------------------------------
  // One PageRank step
  // ---------------------------------------------------------------------------

  /** Every neighbour has a position, a previous score and a non-zero outgoing sum. */
  predicate CanScore(edges: Edges, nodeIndexes: map<string, nat>, outSums: map<string, real>, prev: seq<real>) {
    forall y :: y in edges ==> y in nodeIndexes && nodeIndexes[y] < |prev| && y in outSums && outSums[y] != 0.0
  }

  /** What neighbour `y` passes on: its previous score, shared in proportion to the edge weight. */
  function Contribution(edges: Edges, nodeIndexes: map<string, nat>, outSums: map<string, real>, prev: seq<real>): string -> real {
    y =>
      if y in edges && y in nodeIndexes && nodeIndexes[y] < |prev| && y in outSums && outSums[y] != 0.0
      then edges[y] as real / outSums[y] * prev[nodeIndexes[y]]
      else 0.0
  }

  /** The damped update of node `x`: `(1 - d) + d * sum of its neighbours' contributions`. */
  ghost function Update(g: Graph, nodeIndexes: map<string, nat>, outSums: map<string, real>, prev: seq<real>, damping: real, x: string): real {
    if x in g then Damped(damping, SumOver(g[x].Keys, Contribution(g[x], nodeIndexes, outSums, prev)))
    else 0.0
  }

  /** The damped PageRank formula: `(1 - d) + d * s`. */
  function Damped(damping: real, s: real): real {
    (1.0 - damping) + damping * s
  }

  predicate NonNegative(s: seq<real>) {
    forall k :: 0 <= k < |s| ==> s[k] >= 0.0
  }

  /** `score_word`: the new score of one node from its edges and the previous scores. */
  method ScoreWord(edges: Edges, nodeIndexes: map<string, nat>, outSums: map<string, real>, prev: seq<real>, damping: real)
    returns (score: real)
    requires CanScore(edges, nodeIndexes, outSums, prev)
    ensures score == (1.0 - damping) + damping * SumOver(edges.Keys, Contribution(edges, nodeIndexes, outSums, prev))
    ensures 0.0 <= damping && NonNegative(prev) && (forall y :: y in outSums ==> outSums[y] > 0.0)
            ==> score >= 1.0 - damping
    ensures |edges| == 0 ==> score == 1.0 - damping
  {
    var total := SumContributions(edges, nodeIndexes, outSums, prev);
    score := (1.0 - damping) + damping * total;
    if 0.0 <= damping && NonNegative(prev) && (forall y :: y in outSums ==> outSums[y] > 0.0) {
      ContributionsNonNegative(edges, nodeIndexes, outSums, prev);
      ScaleNonNegative(damping, total);
    }
  }

  /** The neighbour sum of `score_word`, keys visited in any order. */
  method SumContributions(edges: Edges, nodeIndexes: map<string, nat>, outSums: map<string, real>, prev: seq<real>)
    returns (total: real)
    requires CanScore(edges, nodeIndexes, outSums, prev)
    ensures total == SumOver(edges.Keys, Contribution(edges, nodeIndexes, outSums, prev))
  {
    total := 0.0;
    var rest := edges.Keys;
    ghost var f := Contribution(edges, nodeIndexes, outSums, prev);
    while rest != {}
      invariant rest <= edges.Keys
      invariant total + SumOver(rest, f) == SumOver(edges.Keys, f)
      decreases |rest|
    {
      var y :| y in rest;
      SumOverRemove(rest, f, y);
      total := total + edges[y] as real / outSums[y] * prev[nodeIndexes[y]];
      rest := rest - {y};
    }
  }

  /** Non-negative previous scores and positive sums make every contribution non-negative. */
  lemma ContributionsNonNegative(edges: Edges, nodeIndexes: map<string, nat>, outSums: map<string, real>, prev: seq<real>)
    requires NonNegative(prev)
    requires forall y :: y in outSums ==> outSums[y] > 0.0
    ensures SumOver(edges.Keys, Contribution(edges, nodeIndexes, outSums, prev)) >= 0.0
  {
    var f := Contribution(edges, nodeIndexes, outSums, prev);
    forall y | y in edges.Keys
      ensures f(y) >= 0.0
    {
      if y in nodeIndexes && nodeIndexes[y] < |prev| && y in outSums {
        ContributionNonNegative(edges[y] as real, outSums[y], prev[nodeIndexes[y]]);
      }
    }
    SumOverNonnegative(edges.Keys, f);
  }

  lemma ContributionNonNegative(w: real, out: real, p: real)
    requires w >= 0.0 && out > 0.0 && p >= 0.0
    ensures w / out * p >= 0.0
  {
  }

  lemma ScaleNonNegative(d: real, t: real)
    requires d >= 0.0 && t >= 0.0
    ensures d * t >= 0.0
  {
  }

  /**
   * `get_scores`: the new score of every node, listed in `nodes` order. The
   * source walks `graph.values()`, which yields the nodes in the same order as
   * the `graph.keys()` that `nodes` enumerates.
   */
  method GetScores(g: Graph, nodes: seq<string>, nodeIndexes: map<string, nat>, outSums: map<string, real>, prev: seq<real>, damping: real)
    returns (scores: seq<real>)
    requires Enumerates(nodes, g.Keys)
    requires forall x :: x in g ==> CanScore(g[x], nodeIndexes, outSums, prev)
    ensures |scores| == |nodes|
    ensures forall k :: 0 <= k < |nodes| ==> scores[k] == Update(g, nodeIndexes, outSums, prev, damping, nodes[k])
  {
    scores := [];
    while |scores| < |nodes|
      invariant |scores| <= |nodes|
      invariant forall k :: 0 <= k < |scores| ==> scores[k] == Update(g, nodeIndexes, outSums, prev, damping, nodes[k])
    {
      var score := ScoreWord(g[nodes[|scores|]], nodeIndexes, outSums, prev, damping);
      scores := scores + [score];
    }
  }

  /** `nodes` enumerates the graph, `nodeIndexes` is its index map and `outSums` its outgoing sums. */
  ghost predicate Prepared(g: Graph, nodes: seq<string>, nodeIndexes: map<string, nat>, outSums: map<string, real>) {
    && Enumerates(nodes, g.Keys)
    && nodeIndexes == Indexes(nodes)
    && (forall x :: x in g ==> x in outSums)
    && forall x :: x in outSums ==> outSums[x] == OutSum(g, x)
  }

  /** The previous score of word `y`, 0 when it has none. */
  function PrevOf(nodeIndexes: map<string, nat>, prev: seq<real>): string -> real {
    y => if y in nodeIndexes && nodeIndexes[y] < |prev| then prev[nodeIndexes[y]] else 0.0
  }

  /** What each unit of edge weight carries away from `y`: its previous score over its outgoing sum. */
  function Shares(outSums: map<string, real>, p: string -> real): string -> real {
    y => if y in outSums && outSums[y] != 0.0 then p(y) / outSums[y] else 0.0
  }

  /** The weight-proportional flow from `y` to `x`, for every pair of words. */
  function Flow(g: Graph, share: string -> real): string -> string -> real {
    x => y => Weight(g, x, y) as real * share(y)
  }

  /** Every node has a position, a previous score and a non-zero outgoing sum. */
  predicate Scorable(g: Graph, nodeIndexes: map<string, nat>, outSums: map<string, real>, prev: seq<real>) {
    forall y :: y in g ==> y in nodeIndexes && nodeIndexes[y] < |prev| && y in outSums && outSums[y] != 0.0
  }

  lemma PreparedScorable(g: Graph, nodes: seq<string>, nodeIndexes: map<string, nat>, outSums: map<string, real>, prev: seq<real>)
    requires Prepared(g, nodes, nodeIndexes, outSums)
    requires forall y :: y in g ==> y in outSums && outSums[y] != 0.0
    requires |prev| == |nodes|
    ensures Scorable(g, nodeIndexes, outSums, prev)
  {
    forall y | y in g
      ensures y in nodeIndexes && nodeIndexes[y] < |prev|
    {
      assert y in nodes;
    }
  }

  /** On a closed graph a node's contributions are its row of the flow table, taken over all nodes. */
  lemma ContributionsAsRow(g: Graph, nodeIndexes: map<string, nat>, outSums: map<string, real>, prev: seq<real>, x: string)
    requires Closed(g)
    requires Scorable(g, nodeIndexes, outSums, prev)
    requires x in g
    ensures SumOver(g[x].Keys, Contribution(g[x], nodeIndexes, outSums, prev))
            == SumOver(g.Keys, Flow(g, Shares(outSums, PrevOf(nodeIndexes, prev)))(x))
  {
    var f := Contribution(g[x], nodeIndexes, outSums, prev);
    var h := Flow(g, Shares(outSums, PrevOf(nodeIndexes, prev)))(x);
    forall y | y in g[x]
      ensures f(y) == h(y)
    {
      assert y in g;
      assert Weight(g, x, y) == g[x][y];
      FlowTerm(g[x][y] as real, outSums[y], prev[nodeIndexes[y]]);
    }
    forall y | y in g.Keys && y !in g[x].Keys
      ensures h(y) == 0.0
    {
      assert Weight(g, x, y) == 0;
    }
    SumOverExtend(g[x].Keys, g.Keys, f, h);
  }

  /** The weights leaving `y`, as a function on all words. */
  function WeightsFrom(g: Graph, y: string): string -> real {
    x => Weight(g, y, x) as real
  }

  /** The weights arriving at `y`, as a function on all words. */
  function WeightsTo(g: Graph, y: string): string -> real {
    x => Weight(g, x, y) as real
  }

  /** Summing `y`'s weights over every node adds only zeros to its outgoing sum. */
  lemma OutSumOverNodes(g: Graph, y: string)
    requires Closed(g)
    requires y in g
    ensures SumOver(g.Keys, WeightsFrom(g, y)) == OutSum(g, y)
  {
    forall x | x in g[y]
      ensures WeightOf(g[y])(x) == WeightsFrom(g, y)(x)
    {
    }
    SumOverExtend(g[y].Keys, g.Keys, WeightOf(g[y]), WeightsFrom(g, y));
  }

  /** In an undirected graph a node receives as much weight as it sends. */
  lemma InWeightIsOutWeight(g: Graph, y: string)
    requires Symmetric(g) && Closed(g)
    requires y in g
    ensures SumOver(g.Keys, WeightsTo(g, y)) == OutSum(g, y)
  {
    forall x | x in g.Keys
      ensures WeightsTo(g, y)(x) == WeightsFrom(g, y)(x)
    {
      assert Weight(g, x, y) == Weight(g, y, x);
    }
    SumOverExtend(g.Keys, g.Keys, WeightsTo(g, y), WeightsFrom(g, y));
    OutSumOverNodes(g, y);
  }

  /** Column `y` of the flow table hands on `share(y)` times the weight arriving at `y`. */
  lemma FlowColumn(g: Graph, share: string -> real, y: string)
    ensures SumOver(g.Keys, Column(Flow(g, share), y)) == share(y) * SumOver(g.Keys, WeightsTo(g, y))
  {
    FlowColumnTerms(g, share, y);
    SumOverScale(g.Keys, WeightsTo(g, y), Column(Flow(g, share), y), share(y));
  }

  lemma FlowColumnTerms(g: Graph, share: string -> real, y: string)
    ensures forall x :: x in g ==> Column(Flow(g, share), y)(x) == share(y) * WeightsTo(g, y)(x)
  {
  }

  lemma FlowTerm(w: real, out: real, p: real)
    requires out != 0.0
    ensures w / out * p == w * (p / out)
  {
  }

  lemma CancelOut(p: real, out: real, share: real, weight: real, total: real)
    requires out != 0.0 && share == p / out && weight == out && total == share * weight
    ensures total == p
  {
  }

  /** Every column of the flow table of an undirected graph sums to that node's previous score. */
  lemma ColumnsGiveBack(g: Graph, outSums: map<string, real>, p: string -> real)
    requires Symmetric(g) && Closed(g)
    requires forall y :: y in g ==> y in outSums && outSums[y] == OutSum(g, y) && outSums[y] != 0.0
    ensures forall y :: y in g ==> ColumnTotals(Flow(g, Shares(outSums, p)), g.Keys)(y) == p(y)
  {
    forall y | y in g
      ensures ColumnTotals(Flow(g, Shares(outSums, p)), g.Keys)(y) == p(y)
    {
      InWeightIsOutWeight(g, y);
      ColumnGivesBack(g, outSums, p, y);
    }
  }

  lemma ColumnGivesBack(g: Graph, outSums: map<string, real>, p: string -> real, y: string)
    requires y in outSums && outSums[y] != 0.0
    requires SumOver(g.Keys, WeightsTo(g, y)) == outSums[y]
    ensures ColumnTotals(Flow(g, Shares(outSums, p)), g.Keys)(y) == p(y)
  {
    FlowColumn(g, Shares(outSums, p), y);
    var share := Shares(outSums, p)(y);
    var weight := SumOver(g.Keys, WeightsTo(g, y));
    CancelOut(p(y), outSums[y], share, weight, SumOver(g.Keys, Column(Flow(g, Shares(outSums, p)), y)));
  }

  /** The update of every word, as a function. */
  ghost function Updates(g: Graph, nodeIndexes: map<string, nat>, outSums: map<string, real>, prev: seq<real>, damping: real): string -> real {
    x => Update(g, nodeIndexes, outSums, prev, damping, x)
  }

  /** A node's update is the constant part plus the damped total of its row of the flow table. */
  lemma UpdateAsRow(g: Graph, nodeIndexes: map<string, nat>, outSums: map<string, real>, prev: seq<real>, damping: real, x: string)
    requires Closed(g)
    requires Scorable(g, nodeIndexes, outSums, prev)
    requires x in g
    ensures Update(g, nodeIndexes, outSums, prev, damping, x)
            == Damped(damping, RowTotals(Flow(g, Shares(outSums, PrevOf(nodeIndexes, prev))), g.Keys)(x))
  {
    ContributionsAsRow(g, nodeIndexes, outSums, prev, x);
  }

  /** The sum of all updates, given that every column of the flow table gives back its previous score. */
  lemma UpdatesTotal(g: Graph, nodeIndexes: map<string, nat>, outSums: map<string, real>, prev: seq<real>, damping: real)
    requires Closed(g)
    requires Scorable(g, nodeIndexes, outSums, prev)
    requires forall y :: y in g ==> ColumnTotals(Flow(g, Shares(outSums, PrevOf(nodeIndexes, prev))), g.Keys)(y) == PrevOf(nodeIndexes, prev)(y)
    ensures SumOver(g.Keys, Updates(g, nodeIndexes, outSums, prev, damping))
            == DampedTotal(damping, |g.Keys|, SumOver(g.Keys, PrevOf(nodeIndexes, prev)))
  {
    var keys := g.Keys;
    var p := PrevOf(nodeIndexes, prev);
    var flow := Flow(g, Shares(outSums, p));
    var rows := RowTotals(flow, keys);
    var u := Updates(g, nodeIndexes, outSums, prev, damping);
    forall x | x in keys
      ensures u(x) == Damped(damping, rows(x))
    {
      UpdateAsRow(g, nodeIndexes, outSums, prev, damping, x);
    }
    SumOverDamped(keys, rows, u, damping);
    // Exchange the double sum: column `y` gives back `p(y)`.
    SumOverSwap(keys, keys, flow);
    SumOverExtend(keys, keys, ColumnTotals(flow, keys), p);
  }

  /** The damped formula summed over `n` nodes whose inputs add up to `total`. */
  function DampedTotal(damping: real, n: nat, total: real): real {
    (1.0 - damping) * n as real + damping * total
  }

  /** Summing damped terms: the constant part once per key, the damped part scaled once. */
  lemma SumOverDamped(keys: set<string>, f: string -> real, u: string -> real, damping: real)
    requires forall x :: x in keys ==> u(x) == Damped(damping, f(x))
    ensures SumOver(keys, u) == DampedTotal(damping, |keys|, SumOver(keys, f))
  {
    var a := x => 1.0 - damping;
    var b := x => damping * f(x);
    SumOverAdd(keys, a, b, u);
    SumOverConstant(keys, a, 1.0 - damping);
    SumOverScale(keys, f, b, damping);
  }

  /**
   * One update keeps the total score at `(1 - d) * n + d * (previous total)`:
   * on an undirected graph every node hands on exactly its previous score.
   * Starting from all ones, the scores therefore always add up to the number of nodes.
   */
  lemma UpdateConservesTotal(g: Graph, nodes: seq<string>, nodeIndexes: map<string, nat>, outSums: map<string, real>,
                             prev: seq<real>, damping: real, scores: seq<real>)
    requires WellFormed(g) && Symmetric(g)
    requires Prepared(g, nodes, nodeIndexes, outSums)
    requires |prev| == |nodes| && |scores| == |nodes|
    requires forall k :: 0 <= k < |nodes| ==> scores[k] == Update(g, nodeIndexes, outSums, prev, damping, nodes[k])
    ensures SeqSum(scores) == DampedTotal(damping, |nodes|, SeqSum(prev))
  {
    SymmetricClosed(g);
    forall y | y in g
      ensures y in outSums && outSums[y] != 0.0
    {
      OutSumAtLeastOne(g, y);
    }
    ClosedConservesTotal(g, nodes, nodeIndexes, outSums, prev, damping, scores);
  }

  /** `UpdateConservesTotal`, for a closed graph whose outgoing sums are all non-zero. */
  lemma ClosedConservesTotal(g: Graph, nodes: seq<string>, nodeIndexes: map<string, nat>, outSums: map<string, real>,
                             prev: seq<real>, damping: real, scores: seq<real>)
    requires Closed(g) && Symmetric(g)
    requires Prepared(g, nodes, nodeIndexes, outSums)
    requires forall y :: y in g ==> y in outSums && outSums[y] != 0.0
    requires |prev| == |nodes| && |scores| == |nodes|
    requires forall k :: 0 <= k < |nodes| ==> scores[k] == Update(g, nodeIndexes, outSums, prev, damping, nodes[k])
    ensures SeqSum(scores) == DampedTotal(damping, |nodes|, SeqSum(prev))
  {
    PreparedScorable(g, nodes, nodeIndexes, outSums, prev);
    ColumnsGiveBack(g, outSums, PrevOf(nodeIndexes, prev));
    UpdatesTotal(g, nodeIndexes, outSums, prev, damping);
    ListedSums(g, nodes, nodeIndexes, outSums, prev, damping, scores);
  }

  /** Sums over the listed scores are sums over the node set. */
  lemma ListedSums(g: Graph, nodes: seq<string>, nodeIndexes: map<string, nat>, outSums: map<string, real>,
                   prev: seq<real>, damping: real, scores: seq<real>)
    requires Enumerates(nodes, g.Keys) && nodeIndexes == Indexes(nodes)
    requires |prev| == |nodes| && |scores| == |nodes|
    requires forall k :: 0 <= k < |nodes| ==> scores[k] == Update(g, nodeIndexes, outSums, prev, damping, nodes[k])
    ensures SeqSum(prev) == SumOver(g.Keys, PrevOf(nodeIndexes, prev))
    ensures SeqSum(scores) == SumOver(g.Keys, Updates(g, nodeIndexes, outSums, prev, damping))
    ensures |nodes| == |g.Keys|
  {
    forall k | 0 <= k < |nodes|
      ensures prev[k] == PrevOf(nodeIndexes, prev)(nodes[k])
    {
      IndexesOfDistinct(nodes, k);
    }
    SeqSumOfEnumeration(nodes, g.Keys, prev, PrevOf(nodeIndexes, prev));
    SeqSumOfEnumeration(nodes, g.Keys, scores, Updates(g, nodeIndexes, outSums, prev, damping));
    EnumerationSize(nodes, g.Keys);
  }

  // ---------------------------------------------------------------------------
  // Convergence test and the word rank
  // ---------------------------------------------------------------------------

  function Abs(x: real): (r: real)
    ensures r >= 0.0 && (r == x || r == -x)
  {
    if x < 0.0 then -x else x
  }

  /**
   * `check_tolorance`: every zipped pair of new and previous scores is closer
   * than `tol`. The zip stops at the shorter of the two sequences.
   */
  function CheckTolerance(scores: seq<real>, prev: seq<real>, tol: real): (ok: bool)
    ensures ok <==> forall i :: 0 <= i < |scores| && i < |prev| ==> Abs(scores[i] - prev[i]) < tol
  {
    if |scores| == 0 || |prev| == 0 then true
    else
      var rest := CheckTolerance(scores[1..], prev[1..], tol);
      assert forall i :: 1 <= i < |scores| && i < |prev| ==> scores[1..][i - 1] == scores[i] && prev[1..][i - 1] == prev[i];
      Abs(scores[0] - prev[0]) < tol && rest
  }

  /** Scores that did not move pass every positive tolerance, and no tolerance at or below zero. */
  lemma ToleranceOfUnchanged(scores: seq<real>, tol: real)
    ensures CheckTolerance(scores, scores, tol) <==> |scores| == 0 || tol > 0.0
  {
    if |scores| > 0 && tol <= 0.0 {
      assert Abs(scores[0] - scores[0]) == 0.0;
    }
  }

  /** The test does not depend on which side is the new one. */
  lemma ToleranceSymmetric(scores: seq<real>, prev: seq<real>, tol: real)
    ensures CheckTolerance(scores, prev, tol) == CheckTolerance(prev, scores, tol)
  {
    assert forall i :: 0 <= i < |scores| && i < |prev| ==> Abs(scores[i] - prev[i]) == Abs(prev[i] - scores[i]);
  }

  /** The returned rank: each listed node paired with the score at its index. */
  function CollectRank(nodes: seq<string>, nodeIndexes: map<string, nat>, scores: seq<real>): (rank: map<string, real>)
    requires forall x :: x in nodes ==> x in nodeIndexes && nodeIndexes[x] < |scores|
    ensures forall x :: x in rank <==> x in nodes
    ensures forall x :: x in rank ==> rank[x] == scores[nodeIndexes[x]]
  {
    if |nodes| == 0 then map[]
    else
      var last := nodes[|nodes| - 1];
      assert forall x :: x in nodes <==> x in nodes[..|nodes| - 1] || x == last;
      CollectRank(nodes[..|nodes| - 1], nodeIndexes, scores)[last := scores[nodeIndexes[last]]]
  }

  /** With the index map of the enumeration itself, node `nodes[k]` gets score `scores[k]`. */
  lemma CollectRankAligned(nodes: seq<string>, scores: seq<real>, k: nat)
    requires Distinct(nodes) && |scores| == |nodes|
    requires k < |nodes|
    ensures nodes[k] in CollectRank(nodes, Indexes(nodes), scores)
    ensures CollectRank(nodes, Indexes(nodes), scores)[nodes[k]] == scores[k]
  {
    IndexesOfDistinct(nodes, k);
  }

  /** The value a word rank gives `x`, 0 for a word it does not score. */
  function RankOf(rank: map<string, real>): string -> real {
    x => if x in rank then rank[x] else 0.0
  }

  /**
   * `create_word_rank`: start every node at 1, apply the update to all nodes
   * until two successive score vectors pass the tolerance test, and map every
   * node to its final score. The source loops until that test passes; here
   * the caller bounds the number of rounds, and every property below holds
   * after any number of rounds. `nodes` is the order in which the graph's
   * keys are visited.
   */
  method CreateWordRank(g: Graph, nodes: seq<string>, damping: real, tol: real, rounds: nat)
    returns (rank: map<string, real>)
    requires WellFormed(g) && Closed(g)
    requires Enumerates(nodes, g.Keys)
    ensures rank.Keys == g.Keys
    ensures Symmetric(g) ==> SumOver(g.Keys, RankOf(rank)) == |g.Keys| as real
  {
    var outSums := GetOutgoingWeightSum(g);
    rank := RankWithSums(g, nodes, outSums, damping, tol, rounds);
  }

  /** `create_word_rank` once the outgoing sums are known. */
  method RankWithSums(g: Graph, nodes: seq<string>, outSums: map<string, real>, damping: real, tol: real, rounds: nat)
    returns (rank: map<string, real>)
    requires Closed(g)
    requires Enumerates(nodes, g.Keys)
    requires forall x :: x in outSums <==> x in g
    requires forall x {:trigger outSums[x]} :: x in outSums ==> outSums[x] == OutSum(g, x) && outSums[x] >= 1.0
    ensures rank.Keys == g.Keys
    ensures Symmetric(g) ==> SumOver(g.Keys, RankOf(rank)) == |g.Keys| as real
  {
    EnumerationSize(nodes, g.Keys);
    var scores := IterateScores(g, nodes, Indexes(nodes), outSums, damping, tol, rounds);
    rank := WordRank(g, nodes, scores);
  }

  /** The rank map of the final scores: every node, paired with its score. */
  function WordRank(g: Graph, nodes: seq<string>, scores: seq<real>): (rank: map<string, real>)
    requires Enumerates(nodes, g.Keys) && |scores| == |nodes|
    ensures rank.Keys == g.Keys
    ensures SumOver(g.Keys, RankOf(rank)) == SeqSum(scores)
  {
    var rank := CollectRank(nodes, Indexes(nodes), scores);
    RankCoversNodes(g, nodes, scores, rank);
    rank
  }

  /** The score loop of `create_word_rank`, stopped after at most `rounds` rounds. */
  method IterateScores(g: Graph, nodes: seq<string>, nodeIndexes: map<string, nat>, outSums: map<string, real>,
                       damping: real, tol: real, rounds: nat)
    returns (scores: seq<real>)
    requires Closed(g)
    requires Enumerates(nodes, g.Keys) && nodeIndexes == Indexes(nodes)
    requires forall x :: x in outSums <==> x in g
    requires forall x {:trigger outSums[x]} :: x in outSums ==> outSums[x] == OutSum(g, x) && outSums[x] >= 1.0
    ensures |scores| == |nodes|
    ensures Symmetric(g) ==> SeqSum(scores) == |nodes| as real
  {
    scores := InitialScores(|nodes|);
    var round := 0;
    while round < rounds
      invariant |scores| == |nodes|
      invariant Symmetric(g) ==> SeqSum(scores) == |nodes| as real
    {
      var prev := scores;
      ReadyToScore(g, nodes, nodeIndexes, outSums, prev);
      scores := GetScores(g, nodes, nodeIndexes, outSums, prev, damping);
      if Symmetric(g) {
        RoundKeepsTotal(g, nodes, nodeIndexes, outSums, prev, damping, scores);
      }
      if CheckTolerance(scores, prev, tol) {
        break;
      }
      round := round + 1;
    }
  }

  /** Every node starts at score 1, so the scores start out adding up to `n`. */
  function InitialScores(n: nat): (s: seq<real>)
    ensures |s| == n
    ensures forall k :: 0 <= k < n ==> s[k] == 1.0
    ensures SeqSum(s) == n as real
  {
    if n == 0 then []
    else
      var init := InitialScores(n - 1);
      assert (init + [1.0])[..n - 1] == init;
      init + [1.0]
  }

  /** The outgoing sums of a well-formed graph let every node be scored against `prev`. */
  lemma ReadyToScore(g: Graph, nodes: seq<string>, nodeIndexes: map<string, nat>, outSums: map<string, real>, prev: seq<real>)
    requires Closed(g) && Enumerates(nodes, g.Keys) && nodeIndexes == Indexes(nodes)
    requires |prev| == |nodes|
    requires forall x :: x in outSums <==> x in g
    requires forall x :: x in outSums ==> outSums[x] >= 1.0
    ensures forall x :: x in g ==> CanScore(g[x], nodeIndexes, outSums, prev)
  {
    forall x, y | x in g && y in g[x]
      ensures y in nodeIndexes && nodeIndexes[y] < |prev| && y in outSums && outSums[y] != 0.0
    {
      assert y in g;
      assert y in nodes;
    }
  }

  /** Starting from a total of `n`, one round over an undirected graph keeps the total at `n`. */
  lemma RoundKeepsTotal(g: Graph, nodes: seq<string>, nodeIndexes: map<string, nat>, outSums: map<string, real>,
                        prev: seq<real>, damping: real, scores: seq<real>)
    requires Closed(g) && Symmetric(g)
    requires Enumerates(nodes, g.Keys) && nodeIndexes == Indexes(nodes)
    requires forall x :: x in outSums <==> x in g
    requires forall x {:trigger outSums[x]} :: x in outSums ==> outSums[x] == OutSum(g, x) && outSums[x] >= 1.0
    requires |prev| == |nodes| && |scores| == |nodes|
    requires SeqSum(prev) == |nodes| as real
    requires forall k :: 0 <= k < |nodes| ==> scores[k] == Update(g, nodeIndexes, outSums, prev, damping, nodes[k])
    ensures SeqSum(scores) == |nodes| as real
  {
    assert Prepared(g, nodes, nodeIndexes, outSums);
    ClosedConservesTotal(g, nodes, nodeIndexes, outSums, prev, damping, scores);
  }

  lemma RankCoversNodes(g: Graph, nodes: seq<string>, scores: seq<real>, rank: map<string, real>)
    requires Enumerates(nodes, g.Keys) && |scores| == |nodes|
    requires rank == CollectRank(nodes, Indexes(nodes), scores)
    ensures rank.Keys == g.Keys
    ensures SeqSum(scores) == SumOver(g.Keys, RankOf(rank))
    ensures |nodes| == |g.Keys|
  {
    forall k | 0 <= k < |nodes|
      ensures scores[k] == RankOf(rank)(nodes[k])
    {
      CollectRankAligned(nodes, scores, k);
    }
    SeqSumOfEnumeration(nodes, g.Keys, scores, RankOf(rank));
    EnumerationSize(nodes, g.Keys);
  }
}
