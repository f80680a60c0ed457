/** The Xicor object (its stochastic subsample of the data) and
    factor_importance, which scores every column of X against y with xi,
    drops the scores whose asymptotic p-value is above 0.01, and optionally
    normalises the rest to sum 1. */
module Xicor {
  import opened SeqUtil
  import opened Ranks
  import opened XiStatistic
  import opened TieVariance

  /** stochastic_sample's default threshold. */
  const Threshold: nat := 1000

  /** factor_importance keeps a score only when its p-value is at most this. */
  const Significance: real := 0.01

  /** `idx` is a draw of np.random.choice(arange(n), size = k, replace = False):
      k distinct indices below n. */
  predicate IsSampleDraw(idx: seq<nat>, n: nat, k: nat)
  {
    |idx| == k && (forall j | 0 <= j < k :: idx[j] < n) && Distinct(idx)
  }

  /** A draw usable for data of length n under the given threshold (it is only
      read when n is above the threshold). */
  predicate DrawFits(idx: seq<nat>, n: nat, threshold: nat)
  {
    n > threshold ==> IsSampleDraw(idx, n, threshold)
  }

  /** The number of observations left by stochastic_sample. */
  function SampleSize(n: nat, threshold: nat): nat
  {
    if n > threshold then threshold else n
  }

  /** The data after stochastic_sample: unchanged up to the threshold,
      otherwise s[idx]. */
  function Subsampled(s: seq<real>, threshold: nat, idx: seq<nat>): (r: seq<real>)
    requires DrawFits(idx, |s|, threshold)
    ensures |r| == SampleSize(|s|, threshold)
  {
    if |s| > threshold then Reorder(s, idx) else s
  }

  /** The observations as (x, y) pairs. */
  function Pairs(x: seq<real>, y: seq<real>): (p: seq<(real, real)>)
    requires |x| == |y|
    ensures |p| == |x|
  {
    seq(|x|, k requires 0 <= k < |x| => (x[k], y[k]))
  }

  /** Subsampling x and y with the same draw keeps the observations whole:
      the sampled pairs are distinct observations of the original data, all
      of them when the data is not above the threshold. */
  lemma SubsampleKeepsPairs(x: seq<real>, y: seq<real>, threshold: nat, idx: seq<nat>)
    requires |x| == |y|
    requires DrawFits(idx, |x|, threshold)
    ensures var xs, ys := Subsampled(x, threshold, idx), Subsampled(y, threshold, idx);
      |xs| == |ys| == SampleSize(|x|, threshold) &&
      multiset(Pairs(xs, ys)) <= multiset(Pairs(x, y)) &&
      (|x| <= threshold ==> xs == x && ys == y) &&
      (|x| > threshold ==> forall k | 0 <= k < threshold :: xs[k] == x[idx[k]] && ys[k] == y[idx[k]])
  {
    if |x| > threshold {
      var xs, ys := Subsampled(x, threshold, idx), Subsampled(y, threshold, idx);
      assert Pairs(xs, ys) == Reorder(Pairs(x, y), idx);
      ReorderMultiset(Pairs(x, y), idx);
    }
  }

  /** Xicor(x, y): the data, subsampled once on construction. */
  class Xicor {
    var x: seq<real>
    var y: seq<real>

    predicate Valid()
      reads this
    {
      |x| == |y|
    }

    /** `idx` stands for the random draw of stochastic_sample. */
    constructor (x0: seq<real>, y0: seq<real>, idx: seq<nat>)
      requires |x0| == |y0|
      requires DrawFits(idx, |x0|, Threshold)
      ensures Valid()
      ensures x == Subsampled(x0, Threshold, idx) && y == Subsampled(y0, Threshold, idx)
    {
      x := x0;
      y := y0;
      new;
      StochasticSample(Threshold, idx);
    }

    /** stochastic_sample: above the threshold, keep the observations at `idx`. */
    method StochasticSample(threshold: nat, idx: seq<nat>)
      requires Valid()
      requires DrawFits(idx, |x|, threshold)
      modifies this
      ensures Valid()
      ensures x == Subsampled(old(x), threshold, idx)
      ensures y == Subsampled(old(y), threshold, idx)
    {
      var nsample := |x|;
      if nsample > threshold {
        x := Reorder(x, idx);
        y := Reorder(y, idx);
      }
    }
  }

  /** The random draws of one column: the subsample, the shuffle behind
      `correlation`, the one behind the `correlation` that pval_asymptotic
      reads, and the one behind the x_rank_max_ordered it sorts. */
  datatype ColumnDraw = ColumnDraw(sample: seq<nat>, corrShuffle: seq<nat>,
                                   pvalShuffle: seq<nat>, varShuffle: seq<nat>)

  /** The draws fit a column of n observations, and y's subsample is not
      constant (correlation divides by inverse_g_mean). */
  predicate ColumnReady(n: nat, y: seq<real>, d: ColumnDraw)
  {
    var m := SampleSize(n, Threshold);
    |y| == n && DrawFits(d.sample, n, Threshold) &&
    IsPermutation(d.corrShuffle, m) && IsPermutation(d.pvalShuffle, m) &&
    IsPermutation(d.varShuffle, m) &&
    !Constant(Subsampled(y, Threshold, d.sample))
  }

  predicate Ready(cols: seq<seq<real>>, y: seq<real>, draws: seq<ColumnDraw>)
  {
    |draws| == |cols| &&
    forall i | 0 <= i < |cols| :: |cols[i]| == |y| && ColumnReady(|y|, y, draws[i])
  }

  /** corr[i]: xi of column i against y, on the column's subsample. */
  function ColumnCorrelation(col: seq<real>, y: seq<real>, d: ColumnDraw): (xi: real)
    requires |col| == |y| && ColumnReady(|y|, y, d)
    ensures xi < 1.0
  {
    Correlation(Subsampled(col, Threshold, d.sample), Subsampled(y, Threshold, d.sample), d.corrShuffle)
  }

  /** pvals[i]: pval_asymptotic(ties = False) of column i. */
  function ColumnPValue(col: seq<real>, y: seq<real>, d: ColumnDraw,
                        tail: (nat, real, real) -> real): real
    requires |col| == |y| && ColumnReady(|y|, y, d)
  {
    PValAsymptotic(false, Subsampled(col, Threshold, d.sample), Subsampled(y, Threshold, d.sample),
                   d.pvalShuffle, d.varShuffle, tail)
  }

  function Correlations(cols: seq<seq<real>>, y: seq<real>, draws: seq<ColumnDraw>): (c: seq<real>)
    requires Ready(cols, y, draws)
    ensures |c| == |cols|
  {
    seq(|cols|, i requires 0 <= i < |cols| => ColumnCorrelation(cols[i], y, draws[i]))
  }

  function PValues(cols: seq<seq<real>>, y: seq<real>, draws: seq<ColumnDraw>,
                   tail: (nat, real, real) -> real): (p: seq<real>)
    requires Ready(cols, y, draws)
    ensures |p| == |cols|
  {
    seq(|cols|, i requires 0 <= i < |cols| => ColumnPValue(cols[i], y, draws[i], tail))
  }

  /** corr[pvals > 0.01] = 0. */
  function Masked(corr: seq<real>, pvals: seq<real>): (r: seq<real>)
    requires |corr| == |pvals|
    ensures |r| == |corr|
  {
    seq(|corr|, i requires 0 <= i < |corr| => if pvals[i] > Significance then 0.0 else corr[i])
  }

  /** norm = True: divide by the sum when it is positive, else all zeros. */
  function Normalized(c: seq<real>): (r: seq<real>)
    ensures |r| == |c|
  {
    var total := Sum(c);
    if total > 0.0 then seq(|c|, i requires 0 <= i < |c| => c[i] / total) else Zeros(|c|)
  }

  /** The importances factor_importance returns for the given draws. */
  function Importances(cols: seq<seq<real>>, y: seq<real>, norm: bool, draws: seq<ColumnDraw>,
                       tail: (nat, real, real) -> real): (r: seq<real>)
    requires Ready(cols, y, draws)
    ensures |r| == |cols|
  {
    Finish(norm, Masked(Correlations(cols, y, draws), PValues(cols, y, draws, tail)))
  }

  /** The last step of factor_importance: normalise when `norm` is set. */
  function Finish(norm: bool, masked: seq<real>): (r: seq<real>)
    ensures |r| == |masked|
  {
    if norm then Normalized(masked) else masked
  }

  /** One pass of factor_importance's loop: Xicor(X[:, i], y), its
      correlation and its pval_asymptotic(ties = False). */
  method ScoreColumn(col: seq<real>, y: seq<real>, d: ColumnDraw,
                     tail: (nat, real, real) -> real) returns (xi: real, pval: real)
    requires |col| == |y| && ColumnReady(|y|, y, d)
    ensures xi == ColumnCorrelation(col, y, d) && xi < 1.0
    ensures pval == ColumnPValue(col, y, d, tail)
  {
    var xiObj := new Xicor(col, y, d.sample);
    xi := Correlation(xiObj.x, xiObj.y, d.corrShuffle);
    pval := PValAsymptotic(false, xiObj.x, xiObj.y, d.pvalShuffle, d.varShuffle, tail);
  }

  /** The loop of factor_importance: one Xicor object per column, its
      correlation and its pval_asymptotic(ties = False). The two numpy buffers
      are sequence values written position by position (np.empty's contents
      are never read, so they start as zeros here). */
  method ScoreColumns(cols: seq<seq<real>>, y: seq<real>, draws: seq<ColumnDraw>,
                      tail: (nat, real, real) -> real) returns (corr: seq<real>, pvals: seq<real>)
    requires Ready(cols, y, draws)
    ensures corr == Correlations(cols, y, draws)
    ensures pvals == PValues(cols, y, draws, tail)
  {
    var nFeatures := |cols|;
    ghost var wantCorr, wantPvals := Correlations(cols, y, draws), PValues(cols, y, draws, tail);
    corr, pvals := Zeros(nFeatures), Zeros(nFeatures);
    for i := 0 to nFeatures
      invariant |corr| == |pvals| == nFeatures
      invariant forall k | 0 <= k < i :: corr[k] == wantCorr[k]
      invariant forall k | 0 <= k < i :: pvals[k] == wantPvals[k]
    {
      var xi, pval := ScoreColumn(cols[i], y, draws[i], tail);
      corr := corr[i := xi];
      pvals := pvals[i := pval];
    }
  }

  /** factor_importance(X, y, norm): X is given by its columns, the random
      draws of each Xicor object by `draws`, and the normal tail used by
      pval_asymptotic by `tail`. */
  method FactorImportance(cols: seq<seq<real>>, y: seq<real>, norm: bool, draws: seq<ColumnDraw>,
                          tail: (nat, real, real) -> real) returns (corr: seq<real>)
    requires Ready(cols, y, draws)
    ensures corr == Importances(cols, y, norm, draws, tail)
  {
    var pvals;
    corr, pvals := ScoreColumns(cols, y, draws, tail);
    corr := Masked(corr, pvals);
    if norm {
      var total := Sum(corr);
      if total > 0.0 {
        corr := seq(|corr|, i requires 0 <= i < |corr| => corr[i] / total);
      } else {
        corr := Zeros(|corr|);
      }
    }
  }

  /** A score is dropped (set to 0) exactly when its p-value is above 0.01;
      without normalisation the others are the xi values themselves. */
  lemma MaskedEntries(corr: seq<real>, pvals: seq<real>, i: nat)
    requires |corr| == |pvals| && i < |corr|
    ensures Masked(corr, pvals)[i] == 0.0 || Masked(corr, pvals)[i] == corr[i]
    ensures pvals[i] > Significance ==> Masked(corr, pvals)[i] == 0.0
    ensures pvals[i] <= Significance ==> Masked(corr, pvals)[i] == corr[i]
  {
  }

  /** With a positive total the normalised scores sum to 1 and keep their
      proportions; otherwise they are all 0. */
  lemma {:induction false} NormalizedSumsToOne(c: seq<real>)
    ensures Sum(c) > 0.0 ==> Sum(Normalized(c)) == 1.0
    ensures Sum(c) > 0.0 ==> forall i | 0 <= i < |c| :: Normalized(c)[i] * Sum(c) == c[i]
    ensures Sum(c) <= 0.0 ==> forall i | 0 <= i < |c| :: Normalized(c)[i] == 0.0
  {
    var total := Sum(c);
    if total > 0.0 {
      var r := seq(|c|, i requires 0 <= i < |c| => c[i] / total);
      assert Normalized(c) == r;
      SumScaled(c, total);
      assert Sum(r) == total / total == 1.0;
      forall i | 0 <= i < |c| ensures r[i] * total == c[i] {
        assert r[i] == c[i] / total;
      }
    }
  }

  /** Normalising twice changes nothing: the normalised scores already sum to 1
      (or are all 0). */
  lemma NormalizedIdempotent(c: seq<real>)
    ensures Normalized(Normalized(c)) == Normalized(c)
  {
    var r := Normalized(c);
    NormalizedSumsToOne(c);
    if Sum(c) > 0.0 {
      NormalizedSumsToOne(r);
      forall i | 0 <= i < |c| ensures Normalized(r)[i] == r[i] {
      }
    } else {
      SumConstant(|c|, 0.0);
      assert r == seq(|c|, _ => 0.0);
    }
  }

  /** The scores factor_importance returns from the xi values and p-values:
      a score whose p-value is above 0.01 is 0; with norm the scores sum to 1
      when the kept xi values have a positive total, and are all 0 otherwise;
      without norm the kept scores are the xi values. */
  lemma FinishProperties(norm: bool, corr: seq<real>, pvals: seq<real>)
    requires |corr| == |pvals|
    ensures var masked := Masked(corr, pvals);
      var r := Finish(norm, masked);
      (forall i | 0 <= i < |corr| :: pvals[i] > Significance ==> r[i] == 0.0) &&
      (norm && Sum(masked) > 0.0 ==> Sum(r) == 1.0) &&
      (norm && Sum(masked) <= 0.0 ==> forall i | 0 <= i < |corr| :: r[i] == 0.0) &&
      (!norm ==> forall i | 0 <= i < |corr| :: pvals[i] <= Significance ==> r[i] == corr[i])
  {
    var masked := Masked(corr, pvals);
    NormalizedSumsToOne(masked);
    forall i | 0 <= i < |corr| && pvals[i] > Significance
      ensures Finish(norm, masked)[i] == 0.0
    {
      MaskedEntries(corr, pvals, i);
      if norm && Sum(masked) > 0.0 {
        assert Normalized(masked)[i] == masked[i] / Sum(masked);
      }
    }
  }

  /** Without norm every score is below 1, as xi is. */
  lemma UnnormalizedBelowOne(cols: seq<seq<real>>, y: seq<real>, draws: seq<ColumnDraw>,
                             tail: (nat, real, real) -> real)
    requires Ready(cols, y, draws)
    ensures forall i | 0 <= i < |cols| :: Importances(cols, y, false, draws, tail)[i] < 1.0
  {
    var corr := Correlations(cols, y, draws);
    forall i | 0 <= i < |cols| ensures Importances(cols, y, false, draws, tail)[i] < 1.0 {
      MaskedEntries(corr, PValues(cols, y, draws, tail), i);
    }
  }
}
