/** Chatterjee's xi coefficient (arXiv:1909.10140) as the source computes it:
    mean_absolute, inverse_g_mean and correlation. */
module XiStatistic {
  import opened SeqUtil
  import opened Ranks

  /** y takes a single value. */
  predicate Constant(y: seq<real>)
  {
    forall i, j | 0 <= i < |y| && 0 <= j < |y| :: y[i] == y[j]
  }

  /** The absolute increments |lo[k] - hi[k+1]| for k = 0..n-2: the slice [0, n-1)
      of `lo` zipped with the slice [1, n) of `hi`. */
  function Increments(lo: seq<real>, hi: seq<real>): (d: seq<real>)
    requires 1 <= |lo| == |hi|
    ensures |d| == |lo| - 1
  {
    seq(|lo| - 1, k requires 0 <= k < |lo| - 1 => Abs(lo[k] - hi[k + 1]))
  }

  /** np.mean(increments) * (n - 1) / (2 n). */
  function IncrementMean(lo: seq<real>, hi: seq<real>): real
    requires 2 <= |lo| == |hi|
  {
    Mean(Increments(lo, hi)) * ((|lo| - 1) as real) / ((2 * |lo|) as real)
  }

  lemma {:induction false} SumBounded(s: seq<real>, c: real)
    requires forall k | 0 <= k < |s| :: s[k] <= c
    ensures Sum(s) <= (|s| as real) * c
  {
    if |s| > 0 {
      SumBounded(s[..|s| - 1], c);
    }
  }

  /** The mean times (n-1)/(2n) is the plain sum over 2n. */
  lemma IncrementMeanIsSum(lo: seq<real>, hi: seq<real>)
    requires 2 <= |lo| == |hi|
    ensures IncrementMean(lo, hi) == Sum(Increments(lo, hi)) / ((2 * |lo|) as real)
  {
    var s := Sum(Increments(lo, hi));
    var m := (|lo| - 1) as real;
    var n2 := (2 * |lo|) as real;
    assert Mean(Increments(lo, hi)) == s / m;
    assert s / m * m == s;
  }

  /** Every entry of the rearranged f lies in (0, 1]. */
  lemma XRankMaxOrderedInUnitInterval(x: seq<real>, y: seq<real>, perm: seq<nat>)
    requires |x| == |y|
    requires IsPermutation(perm, |x|)
    ensures forall k | 0 <= k < |x| :: 0.0 < XRankMaxOrdered(x, y, perm)[k] <= 1.0
  {
    var ord := XOrdered(x, perm);
    forall k | 0 <= k < |x| ensures 0.0 < XRankMaxOrdered(x, y, perm)[k] <= 1.0 {
      YRankMaxCounts(y, ord[k]);
    }
  }

  /** Increments of values in (0, 1] lie in [0, 1], so their sum lies in [0, n-1]. */
  lemma IncrementSumBounds(lo: seq<real>, hi: seq<real>)
    requires 1 <= |lo| == |hi|
    requires forall k | 0 <= k < |lo| :: 0.0 < lo[k] <= 1.0 && 0.0 < hi[k] <= 1.0
    ensures forall k | 0 <= k < |lo| - 1 :: 0.0 <= Increments(lo, hi)[k] <= 1.0
    ensures 0.0 <= Sum(Increments(lo, hi)) <= (|lo| - 1) as real
  {
    var d := Increments(lo, hi);
    SumNonNegative(d);
    SumBounded(d, 1.0);
  }

  /** A sum S in [0, n-1] over 2n lies in [0, (n-1)/(2n)]. */
  lemma ScaledSumBounds(S: real, n: nat)
    requires n >= 2
    requires 0.0 <= S <= (n - 1) as real
    ensures 0.0 <= S / ((2 * n) as real) <= ((n - 1) as real) / ((2 * n) as real)
  {
  }

  /** mean_absolute of the rearranged f, one shuffle shared by both slices:
      (sum of |f_ord[k+1] - f_ord[k]|) / (2n), between 0 and (n-1)/(2n). */
  function MeanAbsolute(x: seq<real>, y: seq<real>, perm: seq<nat>): (m: real)
    requires 2 <= |x| == |y|
    requires IsPermutation(perm, |x|)
    ensures m == Sum(Increments(XRankMaxOrdered(x, y, perm), XRankMaxOrdered(x, y, perm)))
                 / ((2 * |x|) as real)
    ensures 0.0 <= m <= ((|x| - 1) as real) / ((2 * |x|) as real)
  {
    var fo := XRankMaxOrdered(x, y, perm);
    var d := Increments(fo, fo);
    IncrementMeanIsSum(fo, fo);
    XRankMaxOrderedInUnitInterval(x, y, perm);
    IncrementSumBounds(fo, fo);
    ScaledSumBounds(Sum(d), |x|);
    IncrementMean(fo, fo)
  }

  /** The terms g[i] * (1 - g[i]) of inverse_g_mean. */
  function GTerms(y: seq<real>): (t: seq<real>)
    ensures |t| == |y|
  {
    var g := G(y);
    seq(|y|, i requires 0 <= i < |y| => g[i] * (1.0 - g[i]))
  }

  /** Each term lies in [0, 1/4], and it is 0 exactly where g is 1, that is at a smallest y. */
  lemma GTermBounds(y: seq<real>, i: nat)
    requires i < |y|
    ensures 0.0 <= GTerms(y)[i] <= 0.25
    ensures GTerms(y)[i] == 0.0 <==> forall j | 0 <= j < |y| :: y[i] <= y[j]
  {
    var g := G(y)[i];
    GCountsAtLeast(y, i);
    GOfSmallest(y, i);
    assert GTerms(y)[i] == g * (1.0 - g);
    assert 0.25 - g * (1.0 - g) == (g - 0.5) * (g - 0.5);
  }

  /** inverse_g_mean: the mean of g * (1 - g). It is never negative and is 0
      exactly when y is constant, the one case where correlation divides by 0. */
  function InverseGMean(y: seq<real>): (r: real)
    requires |y| > 0
    ensures 0.0 <= r <= 0.25
    ensures r == 0.0 <==> Constant(y)
  {
    var t := GTerms(y);
    forall i | 0 <= i < |y| ensures 0.0 <= t[i] <= 0.25 {
      GTermBounds(y, i);
    }
    SumNonNegative(t);
    SumBounded(t, 0.25);
    SumZeroIffAllZero(t);
    ConstantIffAllSmallest(y);
    Mean(t)
  }

  /** y is constant exactly when every term of inverse_g_mean vanishes. */
  lemma ConstantIffAllSmallest(y: seq<real>)
    ensures Constant(y) <==> forall i | 0 <= i < |y| :: GTerms(y)[i] == 0.0
  {
    forall i | 0 <= i < |y| ensures GTerms(y)[i] == 0.0 <==> forall j | 0 <= j < |y| :: y[i] <= y[j] {
      GTermBounds(y, i);
    }
  }

  /** Under a non-constant y the rearranged f has some positive increment. */
  lemma IncrementsNotAllZero(x: seq<real>, y: seq<real>, perm: seq<nat>)
    requires 2 <= |x| == |y|
    requires IsPermutation(perm, |x|)
    ensures var fo := XRankMaxOrdered(x, y, perm);
      (forall k | 0 <= k < |x| - 1 :: Increments(fo, fo)[k] == 0.0) ==> Constant(y)
  {
    var fo := XRankMaxOrdered(x, y, perm);
    var d := Increments(fo, fo);
    if forall k | 0 <= k < |x| - 1 :: d[k] == 0.0 {
      EqualToFirst(fo, |x| - 1);
      var ord := XOrdered(x, perm);
      var r := XOrderedRank(x, perm);
      XOrderedSortsX(x, perm);
      XOrderedRankIsRanking(x, perm);
      var f := YRankMax(y);
      forall i | 0 <= i < |y| ensures f[i] == fo[0] {
        assert ord[r[i] - 1] == i;
        assert fo[r[i] - 1] == f[i];
      }
      forall i, j | 0 <= i < |y| && 0 <= j < |y| ensures y[i] == y[j] {
        YRankMaxOrder(y, i, j);
        YRankMaxOrder(y, j, i);
      }
    }
  }

  lemma {:induction false} EqualToFirst(fo: seq<real>, k: nat)
    requires 1 <= |fo| && k < |fo|
    requires forall l | 0 <= l < |fo| - 1 :: Increments(fo, fo)[l] == 0.0
    ensures forall l | 0 <= l <= k :: fo[l] == fo[0]
  {
    if k > 0 {
      EqualToFirst(fo, k - 1);
      assert Increments(fo, fo)[k - 1] == Abs(fo[k - 1] - fo[k]);
    }
  }

  /** A non-constant y has two distinct positions. */
  lemma NotConstantHasTwo(y: seq<real>)
    requires !Constant(y)
    ensures |y| >= 2
  {
    var i, j :| 0 <= i < |y| && 0 <= j < |y| && y[i] != y[j];
  }

  /** Under a non-constant y, mean_absolute is positive. */
  lemma MeanAbsolutePositive(x: seq<real>, y: seq<real>, perm: seq<nat>)
    requires 2 <= |x| == |y|
    requires IsPermutation(perm, |x|)
    requires !Constant(y)
    ensures MeanAbsolute(x, y, perm) > 0.0
  {
    var fo := XRankMaxOrdered(x, y, perm);
    var d := Increments(fo, fo);
    IncrementsNotAllZero(x, y, perm);
    assert !(forall k | 0 <= k < |x| - 1 :: d[k] == 0.0);
    XRankMaxOrderedInUnitInterval(x, y, perm);
    IncrementSumBounds(fo, fo);
    SumZeroIffAllZero(d);
    PositiveOverPositive(Sum(d), (2 * |x|) as real);
  }

  lemma PositiveOverPositive(a: real, b: real)
    requires a > 0.0 && b > 0.0
    ensures a / b > 0.0
  {
  }

  /** correlation = 1 - mean_absolute / inverse_g_mean, defined when y is not
      constant; it is then strictly below 1. */
  function Correlation(x: seq<real>, y: seq<real>, perm: seq<nat>): (xi: real)
    requires |x| == |y|
    requires IsPermutation(perm, |x|)
    requires !Constant(y)
    ensures xi < 1.0
  {
    NotConstantHasTwo(y);
    MeanAbsolutePositive(x, y, perm);
    var ma, igm := MeanAbsolute(x, y, perm), InverseGMean(y);
    PositiveOverPositive(ma, igm);
    1.0 - ma / igm
  }
}
