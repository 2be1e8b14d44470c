/**
  The elbow search of `CustomerSegmentationService.find_best_elbow`: ratios of
  consecutive distortions ("slopes"), their differences ("slope changes"), and the
  search for the most linear point that no later slope undercuts. Also the k-range
  of `train`, with the KMeans fits abstracted as a function from k to inertia.
 */
module Segmentation {
  import opened Wrappers

  datatype ElbowError =
    | TooFewDistortions   // fewer than three distortions: no slope change to minimise
    | ZeroDistortion      // a divisor of the slope ratios is zero
    | NoConvergence       // every candidate was rejected

  function AbsReal(x: real): real { if x < 0.0 then -x else x }

  /** Every distortion used as a divisor is non-zero. */
  predicate NonZeroDivisors(d: seq<real>)
  {
    forall i :: 0 <= i < |d| - 1 ==> d[i] != 0.0
  }

  /** `np.divide(d[1:], d[:-1])`. */
  function Slopes(d: seq<real>): (s: seq<real>)
    requires |d| >= 1 && NonZeroDivisors(d)
    ensures |s| == |d| - 1
    ensures forall i :: 0 <= i < |s| ==> s[i] * d[i] == d[i + 1]
  {
    seq(|d| - 1, i requires 0 <= i < |d| - 1 => d[i + 1] / d[i])
  }

  /** `np.diff(slopes)`. */
  function SlopeChanges(s: seq<real>): (sc: seq<real>)
    requires |s| >= 1
    ensures |sc| == |s| - 1
    ensures forall i :: 0 <= i < |sc| ==> s[i] + sc[i] == s[i + 1]
  {
    seq(|s| - 1, i requires 0 <= i < |s| - 1 => s[i + 1] - s[i])
  }

  /** Candidate `i` passes the test of line 234: its slope change is below every slope from `i` on. */
  predicate Accepts(s: seq<real>, c: real, i: nat)
  {
    forall j :: i <= j < |s| ==> c < s[j]
  }

  /** The search order of repeated `argmin(abs(...))`: smaller magnitude first, then lower index. */
  predicate Before(sc: seq<real>, i: nat, j: nat)
    requires i < |sc| && j < |sc|
  {
    AbsReal(sc[i]) < AbsReal(sc[j]) || (AbsReal(sc[i]) == AbsReal(sc[j]) && i <= j)
  }

  /**
    Reference definition of the elbow index: an accepted slope change that comes
    first in search order among all accepted ones.
   */
  predicate IsBestElbow(s: seq<real>, sc: seq<real>, i: nat)
  {
    && i < |sc|
    && Accepts(s, sc[i], i)
    && forall j :: 0 <= j < |sc| && Accepts(s, sc[j], j) ==> Before(sc, i, j)
  }

  /** `k` clusters is the elbow of distortions `d`: slope change `k - 2` is the best elbow index. */
  predicate IsElbowK(d: seq<real>, k: nat)
  {
    && |d| >= 3 && NonZeroDivisors(d)
    && 2 <= k <= |d| - 1
    && IsBestElbow(Slopes(d), SlopeChanges(Slopes(d)), k - 2)
  }

  /** The search order is a total order, so the elbow index is unique. */
  lemma BestElbowUnique(s: seq<real>, sc: seq<real>, i: nat, j: nat)
    requires IsBestElbow(s, sc, i) && IsBestElbow(s, sc, j)
    ensures i == j
  {
  }

  /** First index in search order among the candidates `open`. */
  method ArgMinAbs(sc: seq<real>, open: set<nat>) returns (i: nat)
    requires open != {}
    requires forall j :: j in open ==> j < |sc|
    ensures i in open
    ensures forall j :: j in open ==> Before(sc, i, j)
  {
    var found := false;
    i := 0;
    var q := 0;
    while q < |sc|
      invariant 0 <= q <= |sc|
      invariant found ==> i in open && i < q
      invariant found ==> forall j :: j in open && j < q ==> Before(sc, i, j)
      invariant !found ==> forall j :: j in open ==> j >= q
    {
      if q in open && (!found || AbsReal(sc[q]) < AbsReal(sc[i])) {
        i := q;
        found := true;
      }
      q := q + 1;
    }
    // `open` has a member below `|sc|`, so the scan cannot have missed them all.
    assert found by {
      var w :| w in open;
    }
  }

  /** The candidate indices `0 .. n - 1`. */
  function Indices(n: nat): (r: set<nat>)
    ensures forall i: nat :: i in r <==> i < n
  {
    if n == 0 then {} else Indices(n - 1) + {n - 1}
  }

  /**
    `find_best_elbow`, corrected: fewer than three distortions or a zero divisor is an
    error; otherwise k is two more than the best elbow index, and NoConvergence means
    that no slope change passes the test.
   */
  method FindBestElbow(d: seq<real>) returns (r: Result<nat, ElbowError>)
    ensures r == Failure(TooFewDistortions) <==> |d| < 3
    ensures r == Failure(ZeroDistortion) <==> |d| >= 3 && !NonZeroDivisors(d)
    ensures r == Failure(NoConvergence) <==>
              |d| >= 3 && NonZeroDivisors(d)
              && forall i :: 0 <= i < |d| - 2 ==> !Accepts(Slopes(d), SlopeChanges(Slopes(d))[i], i)
    ensures r.Success? ==> IsElbowK(d, r.value)
  {
    if |d| < 3 {
      return Failure(TooFewDistortions);
    }
    if exists i :: 0 <= i < |d| - 1 && d[i] == 0.0 {
      return Failure(ZeroDistortion);
    }
    var s := Slopes(d);
    var sc := SlopeChanges(s);
    var found := SearchElbow(s, sc);
    match found
    case Some(i) =>
      return Success(i + 2);
    case None =>
      return Failure(NoConvergence);
  }

  /**
    The search loop: each round takes the first unrejected index in search order and
    returns it if it passes the test, or rejects it otherwise. The unrejected set
    shrinks every round, so the search ends, with None once all are rejected.
   */
  method SearchElbow(s: seq<real>, sc: seq<real>) returns (r: Option<nat>)
    ensures r.Some? ==> IsBestElbow(s, sc, r.value)
    ensures r.None? <==> forall i :: 0 <= i < |sc| ==> !Accepts(s, sc[i], i)
  {
    var open := Indices(|sc|);
    while open != {}
      invariant forall j :: j in open ==> j < |sc|
      invariant forall j :: 0 <= j < |sc| && j !in open ==> !Accepts(s, sc[j], j)
      decreases open
    {
      var i := ArgMinAbs(sc, open);
      if Accepts(s, sc[i], i) {
        forall j | 0 <= j < |sc| && Accepts(s, sc[j], j) ensures Before(sc, i, j) {
          assert j in open;
        }
        return Some(i);
      }
      open := open - {i};
    }
    return None;
  }

  // ---------------------------------------------------------------- the loop as written

  /** First index of minimal magnitude (`np.argmin(abs(xs))`). */
  function ArgMinAbsSeq(xs: seq<real>): (i: nat)
    requires |xs| > 0
    ensures i < |xs|
    ensures forall j :: 0 <= j < |xs| ==> AbsReal(xs[i]) <= AbsReal(xs[j])
    ensures forall j :: 0 <= j < i ==> AbsReal(xs[i]) < AbsReal(xs[j])
    decreases |xs|
  {
    if |xs| == 1 then 0
    else
      var k := ArgMinAbsSeq(xs[..|xs| - 1]);
      assert forall j :: 0 <= j < |xs| - 1 ==> xs[..|xs| - 1][j] == xs[j];
      if AbsReal(xs[|xs| - 1]) < AbsReal(xs[k]) then |xs| - 1 else k
  }

  /**
    The loop of lines 228-239 as written, run for at most `fuel` rounds: a rejected
    slope change is overwritten with the constant 1 and stays a candidate, and the
    test compares the overwritten value. None means no answer within `fuel` rounds.
   */
  function ElbowAsWritten(s: seq<real>, tmp: seq<real>, fuel: nat): (r: Option<nat>)
    requires |tmp| > 0
    ensures r.Some? ==> 2 <= r.value <= |tmp| + 1
    ensures r.Some? ==> Accepts(s, tmp[r.value - 2], r.value - 2) || Accepts(s, 1.0, r.value - 2)
    decreases fuel
  {
    if fuel == 0 then None
    else
      var i := ArgMinAbsSeq(tmp);
      if Accepts(s, tmp[i], i) then Some(i + 2)
      else ElbowAsWritten(s, tmp[i := 1.0], fuel - 1)
  }

  /** Distortions 1, 1, 3: slopes 1 and 3, slope change 2. The loop as written never returns. */
  lemma {:induction false} ElbowAsWrittenLoops(fuel: nat)
    ensures Slopes([1.0, 1.0, 3.0]) == [1.0, 3.0]
    ensures SlopeChanges([1.0, 3.0]) == [2.0]
    ensures ElbowAsWritten([1.0, 3.0], [2.0], fuel) == None
  {
    assert !Accepts([1.0, 3.0], 2.0, 0) by {
      assert [1.0, 3.0][0] == 1.0;
    }
    if fuel > 0 {
      assert [2.0][0 := 1.0] == [1.0];
      MaskedStaysRejected(fuel - 1);
    }
  }

  lemma {:induction false} MaskedStaysRejected(fuel: nat)
    ensures ElbowAsWritten([1.0, 3.0], [1.0], fuel) == None
    decreases fuel
  {
    assert !Accepts([1.0, 3.0], 1.0, 0) by {
      assert [1.0, 3.0][0] == 1.0;
    }
    if fuel > 0 {
      assert [1.0][0 := 1.0] == [1.0];
      MaskedStaysRejected(fuel - 1);
    }
  }

  /**
    A decreasing curve, as KMeans inertia is: distortions 100, 30, 20 give slopes 0.3
    and 2/3 and slope change 11/30, which fails the test. The loop as written never
    returns, because the masked value 1 is not below the slope 0.3 either.
   */
  lemma ElbowAsWrittenLoopsDecreasing(fuel: nat)
    ensures Slopes([100.0, 30.0, 20.0]) == [0.3, 2.0 / 3.0]
    ensures SlopeChanges([0.3, 2.0 / 3.0]) == [11.0 / 30.0]
    ensures ElbowAsWritten([0.3, 2.0 / 3.0], [11.0 / 30.0], fuel) == None
  {
    // Neither 11/30 nor the mask 1 lies below the first slope 0.3, so by the
    // contract of `ElbowAsWritten` no round can return.
    assert [0.3, 2.0 / 3.0][0] == 0.3;
  }

  /**
    Distortions 1, 2, 10: slopes 2 and 5, slope change 3, which fails the test; the
    loop as written still returns k = 2 because the masked value 1 passes it.
   */
  lemma ElbowAsWrittenReturnsRejected()
    ensures Slopes([1.0, 2.0, 10.0]) == [2.0, 5.0]
    ensures SlopeChanges([2.0, 5.0]) == [3.0]
    ensures !Accepts([2.0, 5.0], 3.0, 0)
    ensures forall i :: !IsBestElbow([2.0, 5.0], [3.0], i)
    ensures ElbowAsWritten([2.0, 5.0], [3.0], 2) == Some(2)
  {
    assert [2.0, 5.0][0] == 2.0;
    assert Accepts([2.0, 5.0], 1.0, 0);
  }

  // ---------------------------------------------------------------- train

  /**
    `train` followed by `find_best_elbow`: the distortion list holds the inertia of
    k = 1 .. featureCount clusters in order; a chosen k is the elbow of that list, one
    of those tried but never the first or the last; a zero inertia among the divisors
    k = 1 .. featureCount - 1 is reported as such, and so is a list with no elbow.
   */
  method ChooseK(inertia: nat -> real, featureCount: nat) returns (d: seq<real>, r: Result<nat, ElbowError>)
    ensures |d| == featureCount
    ensures forall k :: 1 <= k <= featureCount ==> d[k - 1] == inertia(k)
    ensures r.Success? ==> 2 <= r.value <= featureCount - 1 && d[r.value - 1] == inertia(r.value)
    ensures r.Success? ==> IsElbowK(d, r.value)
    ensures r == Failure(TooFewDistortions) <==> featureCount < 3
    ensures r == Failure(ZeroDistortion) <==>
              featureCount >= 3 && exists k :: 1 <= k < featureCount && inertia(k) == 0.0
    ensures r == Failure(NoConvergence) <==>
              featureCount >= 3 && NonZeroDivisors(d)
              && forall i :: 0 <= i < featureCount - 2 ==> !Accepts(Slopes(d), SlopeChanges(Slopes(d))[i], i)
  {
    d := [];
    var k := 1;
    while k <= featureCount
      invariant 1 <= k <= featureCount + 1
      invariant |d| == k - 1
      invariant forall j :: 1 <= j < k ==> d[j - 1] == inertia(j)
    {
      d := d + [inertia(k)];
      k := k + 1;
    }
    r := FindBestElbow(d);
    // A zero divisor of `d` is a zero inertia of k = 1 .. featureCount - 1, and back.
    assert !NonZeroDivisors(d) <==> exists k :: 1 <= k < featureCount && inertia(k) == 0.0 by {
      if !NonZeroDivisors(d) {
        var i :| 0 <= i < |d| - 1 && d[i] == 0.0;
        assert inertia(i + 1) == 0.0;
      }
    }
  }
}
