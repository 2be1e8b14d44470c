/** Real-valued sums and means over sequences, the arithmetic behind pandas `sum` and `mean`. */
module Seqs {

  /** Sum of `f` over `xs`, folded from the right end so that appending adds one term. */
  function Sum<T>(xs: seq<T>, f: T -> real): real
    decreases |xs|
  {
    if |xs| == 0 then 0.0 else Sum(xs[..|xs| - 1], f) + f(xs[|xs| - 1])
  }

  /** Arithmetic mean of `f` over `xs`; pandas yields NaN on an empty group, callers never ask. */
  function Mean<T>(xs: seq<T>, f: T -> real): real
  {
    if |xs| == 0 then 0.0 else Sum(xs, f) / (|xs| as real)
  }

  lemma SumAppend<T>(xs: seq<T>, x: T, f: T -> real)
    ensures Sum(xs + [x], f) == Sum(xs, f) + f(x)
  {
    assert (xs + [x])[..|xs|] == xs;
  }

  /** Dropping the last element of a concatenation drops it from the second part. */
  lemma ConcatButLast<T>(a: seq<T>, b: seq<T>)
    requires |b| > 0
    ensures (a + b)[..|a + b| - 1] == a + b[..|b| - 1]
    ensures (a + b)[|a + b| - 1] == b[|b| - 1]
  {
  }

  lemma ConcatAssoc<T>(x: seq<T>, y: seq<T>, z: seq<T>)
    ensures (x + y) + z == x + (y + z)
  {
  }

  lemma PrefixTrans<T>(a: seq<T>, b: seq<T>, c: seq<T>)
    requires a <= b && b <= c
    ensures a <= c
  {
  }

  lemma SplitLast<T>(xs: seq<T>)
    requires |xs| > 0
    ensures xs == xs[..|xs| - 1] + [xs[|xs| - 1]]
  {
  }

  lemma SplitAt<T>(xs: seq<T>, k: nat)
    requires k < |xs|
    ensures xs == (xs[..k] + [xs[k]]) + xs[k + 1..]
  {
  }

  /** Position `k` of the middle part `y` of `(x + y) + z`, and what precedes it. */
  lemma InsideMiddle<T>(x: seq<T>, y: seq<T>, z: seq<T>, k: nat)
    requires k < |y|
    ensures |x| + k < |(x + y) + z|
    ensures ((x + y) + z)[|x| + k] == y[k]
    ensures ((x + y) + z)[..|x| + k] == x + y[..k]
  {
    assert ((x + y) + z)[..|x| + k] == (x + y)[..|x| + k];
  }

  lemma SplitFirst<T>(xs: seq<T>)
    requires |xs| > 0
    ensures xs == [xs[0]] + xs[1..]
  {
  }

  /** Peeling the first term off a sum. */
  lemma {:induction false} SumCons<T>(x: T, xs: seq<T>, f: T -> real)
    ensures Sum([x] + xs, f) == f(x) + Sum(xs, f)
    decreases |xs|
  {
    if |xs| > 0 {
      var n := |xs| - 1;
      ConcatButLast([x], xs);
      SumCons(x, xs[..n], f);
    } else {
      assert [x] + xs == [x];
      assert [x][..0] == [];
    }
  }

  /** A sum of terms that all lie in [lo, hi] lies in [n * lo, n * hi]. */
  lemma {:induction false} SumBounds<T>(xs: seq<T>, f: T -> real, lo: real, hi: real)
    requires forall i :: 0 <= i < |xs| ==> lo <= f(xs[i]) <= hi
    ensures (|xs| as real) * lo <= Sum(xs, f) <= (|xs| as real) * hi
    decreases |xs|
  {
    if |xs| > 0 {
      var n := |xs| - 1;
      SumBounds(xs[..n], f, lo, hi);
      assert lo <= f(xs[n]) <= hi;
      assert (|xs| as real) * lo == (n as real) * lo + lo;
      assert (|xs| as real) * hi == (n as real) * hi + hi;
    }
  }

  /** A mean of terms that all lie in [lo, hi] lies in [lo, hi]. */
  lemma MeanBounds<T>(xs: seq<T>, f: T -> real, lo: real, hi: real)
    requires |xs| > 0
    requires forall i :: 0 <= i < |xs| ==> lo <= f(xs[i]) <= hi
    ensures lo <= Mean(xs, f) <= hi
  {
    SumBounds(xs, f, lo, hi);
    var n := |xs| as real;
    var m := Sum(xs, f) / n;
    assert m * n == Sum(xs, f);
  }

  /** A sum of zeros is zero. */
  lemma {:induction false} SumOfZeros<T>(xs: seq<T>, f: T -> real)
    requires forall i :: 0 <= i < |xs| ==> f(xs[i]) == 0.0
    ensures Sum(xs, f) == 0.0
    decreases |xs|
  {
    if |xs| > 0 {
      SumOfZeros(xs[..|xs| - 1], f);
    }
  }
}
