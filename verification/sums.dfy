/**
 * Finite sums of real-valued functions over sets of words and over sequences.
 *
 * A `HashMap` walk visits its keys in an order the program does not control;
 * summing over the key SET states the result without fixing that order.
 */
module Sums {
  import opened Indexing

  /** The sum of `f` over a finite set of words. */
  ghost function SumOver(keys: set<string>, f: string -> real): real {
    SumPicking(keys, f)
  }

  /** `SumOver`, taking the keys out one at a time in a fixed order. */
  ghost function SumPicking(keys: set<string>, f: string -> real): real
    decreases |keys|
  {
    if keys == {} then 0.0
    else
      var k := Pick(keys);
      f(k) + SumPicking(keys - {k}, f)
  }

  /** Some element of a non-empty set, always the same one. */
  ghost function Pick(keys: set<string>): (k: string)
    requires keys != {}
    ensures k in keys
  {
    var k :| k in keys; k
  }

  /** The sum of a sequence, last element added last. */
  function SeqSum(s: seq<real>): real {
    if s == [] then 0.0 else SeqSum(s[..|s| - 1]) + s[|s| - 1]
  }

  lemma {:induction false} SeqSumConstant(s: seq<real>, c: real)
    requires forall k :: 0 <= k < |s| ==> s[k] == c
    ensures SeqSum(s) == c * |s| as real
    decreases |s|
  {
    if s != [] {
      SeqSumConstant(s[..|s| - 1], c);
    }
  }

  /** Any key can be taken out first: the sum does not depend on the visiting order. */
  lemma {:induction false} SumOverRemove(keys: set<string>, f: string -> real, k: string)
    requires k in keys
    ensures SumOver(keys, f) == f(k) + SumOver(keys - {k}, f)
    decreases |keys|
  {
    var j := Pick(keys);
    assert SumOver(keys, f) == f(j) + SumOver(keys - {j}, f);
    if j != k {
      SumOverRemove(keys - {j}, f, k);
      SumOverRemove(keys - {k}, f, j);
      assert keys - {j} - {k} == keys - {k} - {j};
    }
  }

  lemma {:induction false} SumOverNonnegative(keys: set<string>, f: string -> real)
    requires forall k :: k in keys ==> f(k) >= 0.0
    ensures SumOver(keys, f) >= 0.0
    decreases |keys|
  {
    if keys != {} {
      var k :| k in keys;
      SumOverRemove(keys, f, k);
      SumOverNonnegative(keys - {k}, f);
    }
  }

  /** With no negative terms, the sum is at least any one of them. */
  lemma SumOverAtLeast(keys: set<string>, f: string -> real, k: string)
    requires k in keys
    requires forall j :: j in keys ==> f(j) >= 0.0
    ensures SumOver(keys, f) >= f(k)
  {
    SumOverRemove(keys, f, k);
    SumOverNonnegative(keys - {k}, f);
  }

  lemma {:induction false} SumOverConstant(keys: set<string>, f: string -> real, c: real)
    requires forall k :: k in keys ==> f(k) == c
    ensures SumOver(keys, f) == c * |keys| as real
    decreases |keys|
  {
    if keys != {} {
      var k :| k in keys;
      SumOverRemove(keys, f, k);
      SumOverConstant(keys - {k}, f, c);
    }
  }

  lemma {:induction false} SumOverAdd(keys: set<string>, f: string -> real, g: string -> real, h: string -> real)
    requires forall k :: k in keys ==> h(k) == f(k) + g(k)
    ensures SumOver(keys, h) == SumOver(keys, f) + SumOver(keys, g)
    decreases |keys|
  {
    if keys != {} {
      var k :| k in keys;
      SumOverRemove(keys, f, k);
      SumOverRemove(keys, g, k);
      SumOverRemove(keys, h, k);
      SumOverAdd(keys - {k}, f, g, h);
    }
  }

  lemma {:induction false} SumOverScale(keys: set<string>, f: string -> real, h: string -> real, c: real)
    requires forall k :: k in keys ==> h(k) == c * f(k)
    ensures SumOver(keys, h) == c * SumOver(keys, f)
    decreases |keys|
  {
    if keys != {} {
      var k :| k in keys;
      SumOverRemove(keys, f, k);
      SumOverRemove(keys, h, k);
      SumOverScale(keys - {k}, f, h, c);
      ScaleAt(keys, f, h, c, k);
      Distribute(c, h(k), f(k), SumOver(keys - {k}, h), SumOver(keys - {k}, f), SumOver(keys, f));
    }
  }

  lemma ScaleAt(keys: set<string>, f: string -> real, h: string -> real, c: real, k: string)
    requires forall k :: k in keys ==> h(k) == c * f(k)
    requires k in keys
    ensures h(k) == c * f(k)
  {
  }

  lemma Distribute(c: real, x: real, a: real, y: real, b: real, s: real)
    requires x == c * a && y == c * b && s == a + b
    ensures x + y == c * s
  {
  }

  /** Adding keys whose terms are zero, or changing terms nowhere in the set, leaves the sum alone. */
  lemma {:induction false} SumOverExtend(small: set<string>, big: set<string>, f: string -> real, g: string -> real)
    requires small <= big
    requires forall k :: k in small ==> f(k) == g(k)
    requires forall k :: k in big && k !in small ==> g(k) == 0.0
    ensures SumOver(small, f) == SumOver(big, g)
    decreases |big|
  {
    if big != {} {
      var k :| k in big;
      SumOverRemove(big, g, k);
      if k in small {
        SumOverRemove(small, f, k);
        SumOverExtend(small - {k}, big - {k}, f, g);
      } else {
        SumOverExtend(small, big - {k}, f, g);
      }
    }
  }

  /** Row `x` of a table `h`, read down a column: `x => h(x)(y)`. */
  function Column(h: string -> string -> real, y: string): string -> real {
    x => h(x)(y)
  }

  ghost function RowTotals(h: string -> string -> real, ys: set<string>): string -> real {
    x => SumOver(ys, h(x))
  }

  ghost function ColumnTotals(h: string -> string -> real, xs: set<string>): string -> real {
    y => SumOver(xs, Column(h, y))
  }

  lemma ColumnTotalsRemove(h: string -> string -> real, xs: set<string>, x0: string, y: string)
    requires x0 in xs
    ensures ColumnTotals(h, xs)(y) == h(x0)(y) + ColumnTotals(h, xs - {x0})(y)
  {
    SumOverRemove(xs, Column(h, y), x0);
  }

  /** A finite double sum can be taken in either order. */
  lemma {:induction false} SumOverSwap(xs: set<string>, ys: set<string>, h: string -> string -> real)
    ensures SumOver(xs, RowTotals(h, ys)) == SumOver(ys, ColumnTotals(h, xs))
    decreases |xs|
  {
    if xs == {} {
      SumOverConstant(ys, ColumnTotals(h, xs), 0.0);
    } else {
      var x0 :| x0 in xs;
      var rest := xs - {x0};
      forall y | y in ys
        ensures ColumnTotals(h, xs)(y) == h(x0)(y) + ColumnTotals(h, rest)(y)
      {
        ColumnTotalsRemove(h, xs, x0, y);
      }
      calc {
        SumOver(xs, RowTotals(h, ys));
        { SumOverRemove(xs, RowTotals(h, ys), x0); }
        RowTotals(h, ys)(x0) + SumOver(rest, RowTotals(h, ys));
        { SumOverSwap(rest, ys, h); }
        SumOver(ys, h(x0)) + SumOver(ys, ColumnTotals(h, rest));
        { SumOverAdd(ys, h(x0), ColumnTotals(h, rest), ColumnTotals(h, xs)); }
        SumOver(ys, ColumnTotals(h, xs));
      }
    }
  }

  /** Summing values listed once per key, in any enumeration order, is the set sum. */
  lemma {:induction false} SeqSumOfEnumeration(keys: seq<string>, domain: set<string>, values: seq<real>, f: string -> real)
    requires Enumerates(keys, domain)
    requires |values| == |keys|
    requires forall k :: 0 <= k < |keys| ==> values[k] == f(keys[k])
    ensures SeqSum(values) == SumOver(domain, f)
    decreases |keys|
  {
    if keys == [] {
      assert domain == {};
    } else {
      var n := |keys| - 1;
      var last := keys[n];
      assert Enumerates(keys[..n], domain - {last}) by {
        forall x | x in domain - {last}
          ensures x in keys[..n]
        {
          var i :| 0 <= i < |keys| && keys[i] == x;
          assert i != n;
        }
      }
      SeqSumOfEnumeration(keys[..n], domain - {last}, values[..n], f);
      SumOverRemove(domain, f, last);
    }
  }
}
