/** mean_absolute as the code is written, where the two slices of the
    rearranged f come from two independent tie-breaking shuffles, set beside
    the single-shuffle definition the rest of the model uses. */
module XiAsWritten {
  import opened SeqUtil
  import opened Ranks
  import opened XiStatistic

  /** mean_absolute AS WRITTEN: the property x_rank_max_ordered is read twice,
      and every read draws a fresh shuffle, so the two slices may come from
      different tie-breaks `p1` and `p2`. */
  function MeanAbsoluteAsWritten(x: seq<real>, y: seq<real>, p1: seq<nat>, p2: seq<nat>): (m: real)
    requires 2 <= |x| == |y|
    requires IsPermutation(p1, |x|) && IsPermutation(p2, |x|)
    ensures m == Sum(Increments(XRankMaxOrdered(x, y, p1), XRankMaxOrdered(x, y, p2)))
                 / ((2 * |x|) as real)
    ensures m >= 0.0
  {
    var lo, hi := XRankMaxOrdered(x, y, p1), XRankMaxOrdered(x, y, p2);
    IncrementMeanIsSum(lo, hi);
    IncrementSumNonNegative(lo, hi);
    IncrementMean(lo, hi)
  }

  /** correlation AS WRITTEN, over the two shuffles of mean_absolute. */
  function CorrelationAsWritten(x: seq<real>, y: seq<real>, p1: seq<nat>, p2: seq<nat>): (xi: real)
    requires |x| == |y|
    requires IsPermutation(p1, |x|) && IsPermutation(p2, |x|)
    requires !Constant(y)
    ensures xi <= 1.0
  {
    NotConstantHasTwo(y);
    var ma, igm := MeanAbsoluteAsWritten(x, y, p1, p2), InverseGMean(y);
    NonNegativeOverPositive(ma, igm);
    1.0 - ma / igm
  }

  /** The absolute increments add up to a non-negative sum, and so does that sum over 2n. */
  lemma IncrementSumNonNegative(lo: seq<real>, hi: seq<real>)
    requires 1 <= |lo| == |hi|
    ensures Sum(Increments(lo, hi)) >= 0.0
    ensures Sum(Increments(lo, hi)) / ((2 * |lo|) as real) >= 0.0
  {
    var d := Increments(lo, hi);
    SumNonNegative(d);
    NonNegativeOverPositive(Sum(d), (2 * |lo|) as real);
  }

  lemma NonNegativeOverPositive(a: real, b: real)
    requires a >= 0.0 && b > 0.0
    ensures a / b >= 0.0
  {
  }

  /** Without ties in x the two shuffles agree, so the code as written is right there. */
  lemma AsWrittenAgreesWithoutTies(x: seq<real>, y: seq<real>, p1: seq<nat>, p2: seq<nat>)
    requires 2 <= |x| == |y|
    requires IsPermutation(p1, |x|) && IsPermutation(p2, |x|)
    requires Distinct(x)
    ensures MeanAbsoluteAsWritten(x, y, p1, p2) == MeanAbsolute(x, y, p1)
  {
    XOrderedWithoutTies(x, p1, p2);
  }

  /** For y = [0, 1]: f = [1/2, 1], g = [1, 1/2] and inverse_g_mean = 1/8. */
  lemma ExampleTarget(y: seq<real>)
    requires y == [0.0, 1.0]
    ensures YRankMax(y) == [0.5, 1.0]
    ensures InverseGMean(y) == 0.125
  {
    assert AtMost(y, 0) == {0} && AtMost(y, 1) == {0, 1};
    assert MaxRank(y) == [1, 2];
    assert YRankMax(y)[0] == 0.5 && YRankMax(y)[1] == 1.0;
    assert Negate(y) == [-0.0, -1.0];
    assert AtMost(Negate(y), 0) == {0, 1} && AtMost(Negate(y), 1) == {1};
    assert MaxRank(Negate(y)) == [2, 1];
    assert G(y)[0] == 1.0 && G(y)[1] == 0.5;
    assert GTerms(y) == [0.0, 0.25];
    assert GTerms(y)[..1] == [0.0];
    assert Sum([0.0]) == 0.0 by { assert [0.0][..0] == []; }
    assert Sum(GTerms(y)) == 0.25;
  }

  /** Both permutations of two positions are their own inverses. */
  lemma ExampleInverse(perm: seq<nat>)
    requires perm == [0, 1] || perm == [1, 0]
    ensures Inverse(perm) == perm
  {
    var inv := Inverse(perm);
    assert perm[inv[0]] == 0 && perm[inv[1]] == 1;
  }

  /** For x = [0, 0] the shuffle alone decides which tied position ranks first. */
  lemma ExampleRank(x: seq<real>, perm: seq<nat>)
    requires x == [0.0, 0.0] && (perm == [0, 1] || perm == [1, 0])
    requires Inverse(perm) == perm
    ensures perm == [0, 1] ==> XOrderedRank(x, perm) == [1, 2]
    ensures perm == [1, 0] ==> XOrderedRank(x, perm) == [2, 1]
  {
    var r := XOrderedRank(x, perm);
    XOrderedRankIsRanking(x, perm);
    XOrderedRankOrder(x, perm, 0, 1);
    assert r[0] != r[1];
  }

  lemma ExampleArgSort(r: seq<nat>)
    requires r == [1, 2] || r == [2, 1]
    ensures ArgSort(r) == (if r == [1, 2] then [0, 1] else [1, 0])
  {
    var ord := ArgSort(r);
    assert r[ord[0]] == 1 && r[ord[1]] == 2;
  }

  lemma ExampleOrder(x: seq<real>, perm: seq<nat>)
    requires x == [0.0, 0.0] && (perm == [0, 1] || perm == [1, 0])
    ensures XOrdered(x, perm) == perm
  {
    ExampleInverse(perm);
    ExampleRank(x, perm);
    ExampleArgSort(XOrderedRank(x, perm));
  }

  /** For x = [0, 0] and y = [0, 1], f rearranged by either order. */
  lemma ExampleRearranged(x: seq<real>, y: seq<real>, perm: seq<nat>)
    requires x == [0.0, 0.0] && y == [0.0, 1.0] && (perm == [0, 1] || perm == [1, 0])
    ensures perm == [0, 1] ==> XRankMaxOrdered(x, y, perm) == [0.5, 1.0]
    ensures perm == [1, 0] ==> XRankMaxOrdered(x, y, perm) == [1.0, 0.5]
  {
    ExampleTarget(y);
    ExampleOrder(x, perm);
  }

  /** The increment sum of either rearrangement of f alone. */
  lemma ExampleIncrements(fo: seq<real>)
    requires fo == [0.5, 1.0] || fo == [1.0, 0.5]
    ensures Sum(Increments(fo, fo)) == 0.5
  {
    assert Increments(fo, fo) == [0.5];
    assert [0.5][..0] == [];
  }

  /** The increment sum of the two rearrangements mixed. */
  lemma ExampleMixedIncrements(fo1: seq<real>, fo2: seq<real>)
    requires fo1 == [0.5, 1.0] && fo2 == [1.0, 0.5]
    ensures Sum(Increments(fo1, fo2)) == 0.0
  {
    assert Increments(fo1, fo2) == [0.0];
    assert [0.0][..0] == [];
  }

  /** The increment sum of f rearranged by either single shuffle. */
  lemma ExampleSingleSum(x: seq<real>, y: seq<real>, perm: seq<nat>)
    requires x == [0.0, 0.0] && y == [0.0, 1.0] && (perm == [0, 1] || perm == [1, 0])
    ensures Sum(Increments(XRankMaxOrdered(x, y, perm), XRankMaxOrdered(x, y, perm))) == 0.5
  {
    ExampleRearranged(x, y, perm);
    ExampleIncrements(XRankMaxOrdered(x, y, perm));
  }

  /** The increment sum of f rearranged by the two shuffles mixed. */
  lemma ExampleMixedSum(x: seq<real>, y: seq<real>, id: seq<nat>, sw: seq<nat>)
    requires x == [0.0, 0.0] && y == [0.0, 1.0] && id == [0, 1] && sw == [1, 0]
    ensures Sum(Increments(XRankMaxOrdered(x, y, id), XRankMaxOrdered(x, y, sw))) == 0.0
  {
    var fo1, fo2 := XRankMaxOrdered(x, y, id), XRankMaxOrdered(x, y, sw);
    assert fo1 == [0.5, 1.0] by { ExampleRearranged(x, y, id); }
    assert fo2 == [1.0, 0.5] by { ExampleRearranged(x, y, sw); }
    ExampleMixedIncrements(fo1, fo2);
  }

  /** mean_absolute is 1/8 for either single shuffle. */
  lemma ExampleMeanAbsolute(x: seq<real>, y: seq<real>, perm: seq<nat>)
    requires x == [0.0, 0.0] && y == [0.0, 1.0] && (perm == [0, 1] || perm == [1, 0])
    ensures MeanAbsolute(x, y, perm) == 0.125
  {
    ExampleSingleSum(x, y, perm);
  }

  /** mean_absolute as written, over the two different shuffles, is 0. */
  lemma ExampleMeanAbsoluteAsWritten(x: seq<real>, y: seq<real>, id: seq<nat>, sw: seq<nat>)
    requires x == [0.0, 0.0] && y == [0.0, 1.0] && id == [0, 1] && sw == [1, 0]
    ensures MeanAbsoluteAsWritten(x, y, id, sw) == 0.0
  {
    ExampleMixedSum(x, y, id, sw);
  }

  /** xi is 0 exactly when mean_absolute equals inverse_g_mean. */
  lemma CorrelationZero(x: seq<real>, y: seq<real>, perm: seq<nat>)
    requires 2 <= |x| == |y|
    requires IsPermutation(perm, |x|)
    requires !Constant(y)
    requires MeanAbsolute(x, y, perm) == InverseGMean(y)
    ensures Correlation(x, y, perm) == 0.0
  {
    var igm := InverseGMean(y);
    assert igm > 0.0;
    DivideBySelf(igm);
    assert Correlation(x, y, perm) == 1.0 - igm / igm;
  }

  lemma DivideBySelf(a: real)
    requires a > 0.0
    ensures a / a == 1.0
  {
  }

  /** The as-written xi is 1 when its mean_absolute vanishes. */
  lemma CorrelationAsWrittenOne(x: seq<real>, y: seq<real>, p1: seq<nat>, p2: seq<nat>)
    requires 2 <= |x| == |y|
    requires IsPermutation(p1, |x|) && IsPermutation(p2, |x|)
    requires !Constant(y)
    requires MeanAbsoluteAsWritten(x, y, p1, p2) == 0.0
    ensures CorrelationAsWritten(x, y, p1, p2) == 1.0
  {
    var igm := InverseGMean(y);
    assert CorrelationAsWritten(x, y, p1, p2) == 1.0 - 0.0 / igm;
  }

  /** For y = [0, 1], y is not constant and inverse_g_mean is 1/8. */
  lemma ExampleSpread(y: seq<real>)
    requires y == [0.0, 1.0]
    ensures !Constant(y)
    ensures InverseGMean(y) == 0.125
  {
    assert y[0] != y[1];
    ExampleTarget(y);
  }

  /** Either single shuffle gives xi = 0. */
  lemma ExampleCorrelation(x: seq<real>, y: seq<real>, perm: seq<nat>)
    requires x == [0.0, 0.0] && y == [0.0, 1.0] && (perm == [0, 1] || perm == [1, 0])
    ensures !Constant(y)
    ensures Correlation(x, y, perm) == 0.0
  {
    ExampleSpread(y);
    ExampleMeanAbsolute(x, y, perm);
    CorrelationZero(x, y, perm);
  }

  /** The two shuffles mixed give xi = 1. */
  lemma ExampleCorrelationAsWritten(x: seq<real>, y: seq<real>, id: seq<nat>, sw: seq<nat>)
    requires x == [0.0, 0.0] && y == [0.0, 1.0] && id == [0, 1] && sw == [1, 0]
    ensures !Constant(y)
    ensures CorrelationAsWritten(x, y, id, sw) == 1.0
  {
    ExampleSpread(y);
    ExampleMeanAbsoluteAsWritten(x, y, id, sw);
    CorrelationAsWrittenOne(x, y, id, sw);
  }

  /** With a tie in x the two shuffles can disagree: for x = [0, 0] and
      y = [0, 1] every single shuffle gives xi = 0, but the code as written
      can report xi = 1. */
  lemma AsWrittenDiffersUnderTies(x: seq<real>, y: seq<real>, id: seq<nat>, sw: seq<nat>)
    requires x == [0.0, 0.0] && y == [0.0, 1.0] && id == [0, 1] && sw == [1, 0]
    ensures !Constant(y)
    ensures Correlation(x, y, id) == 0.0
    ensures Correlation(x, y, sw) == 0.0
    ensures CorrelationAsWritten(x, y, id, sw) == 1.0
  {
    ExampleCorrelation(x, y, id);
    ExampleCorrelation(x, y, sw);
    ExampleCorrelationAsWritten(x, y, id, sw);
  }
}
