/** The tie-corrected asymptotic variance of xi and the asymptotic p-value
    (pval_asymptotic). The variance is computed from the sorted, rearranged f
    through the weights ind2, a cumulative sum cq and the terms m; the normal
    tail 1 - Phi(sqrt(n) xi / sqrt(v)) is a parameter. */
module TieVariance {
  import opened SeqUtil
  import opened Ranks
  import opened XiStatistic

  /** ind = [1, 2, ..., n]. */
  function Ind(n: nat): seq<int>
  {
    seq(n, i => i + 1)
  }

  /** ind2: for the k-th entry i = ind[k] = k + 1 of ind the code takes
      2n - 2 ind[i - 1] + 1, that is 2n - 2 ind[k] + 1. */
  function Ind2(n: nat): seq<int>
  {
    var ind := Ind(n);
    seq(n, k requires 0 <= k < n => 2 * n - 2 * ind[k] + 1)
  }

  /** ind2 runs through the odd numbers from 2n - 1 down to 1. */
  lemma Ind2Odd(n: nat, k: nat)
    requires k < n
    ensures Ind2(n)[k] >= 1 && Ind2(n)[k] % 2 == 1
    ensures k == 0 ==> Ind2(n)[k] == 2 * n - 1
    ensures k == n - 1 ==> Ind2(n)[k] == 1
    ensures k + 1 < n ==> Ind2(n)[k + 1] == Ind2(n)[k] - 2
  {
    assert Ind(n)[k] == k + 1;
    assert Ind2(n)[k] == 2 * (n - k - 1) + 1;
  }

  /** ind2 as reals, the weights that multiply f. */
  function Weights(n: nat): (w: seq<real>)
    ensures |w| == n
  {
    var ind2 := Ind2(n);
    seq(n, k requires 0 <= k < n => ind2[k] as real)
  }

  /** The odd numbers 1, 3, ..., 2n - 1 add up to n^2, so ind2 has mean n. */
  lemma {:induction false} WeightsSum(n: nat)
    ensures Sum(Weights(n)) == (n * n) as real
  {
    if n > 0 {
      var w, w' := Weights(n), Weights(n - 1);
      assert w[0] == (2 * n - 1) as real by { Ind2Odd(n, 0); }
      assert w == [w[0]] + w' by {
        forall j | 0 <= j < n - 1 ensures w[j + 1] == w'[j] {
          assert Ind(n)[j + 1] == j + 2 && Ind(n - 1)[j] == j + 1;
        }
      }
      SumAppend([w[0]], w');
      assert Sum([w[0]]) == w[0] by { assert [w[0]][..0] == []; }
      WeightsSum(n - 1);
      assert ((n - 1) * (n - 1)) as real + (2 * n - 1) as real == (n * n) as real;
    }
  }

  /** sorted_ordered_x_rank: the rearranged f, sorted ascending. */
  function SortedF(x: seq<real>, y: seq<real>, perm: seq<nat>): (s: seq<real>)
    requires |x| == |y|
    requires IsPermutation(perm, |x|)
    ensures |s| == |x|
  {
    SortAsc(XRankMaxOrdered(x, y, perm))
  }

  /** The sorted values are in ascending order and are the rearranged f's. */
  lemma SortedFSorts(x: seq<real>, y: seq<real>, perm: seq<nat>)
    requires |x| == |y|
    requires IsPermutation(perm, |x|)
    ensures Sorted(SortedF(x, y, perm))
    ensures multiset(SortedF(x, y, perm)) == multiset(XRankMaxOrdered(x, y, perm))
  {
    SortAscSorts(XRankMaxOrdered(x, y, perm));
  }

  /** Sorting undoes the rearrangement: the sorted values are the sorted f,
      whatever x and the shuffle are. */
  lemma SortedFOnlyOnY(x: seq<real>, y: seq<real>, perm: seq<nat>)
    requires |x| == |y|
    requires IsPermutation(perm, |x|)
    ensures SortedF(x, y, perm) == SortAsc(YRankMax(y))
  {
    XRankMaxOrderedPermutesF(x, y, perm);
    SortAscOfPermuted(XRankMaxOrdered(x, y, perm), YRankMax(y));
  }

  /** Every sorted value lies in (0, 1]. */
  lemma SortedFInUnitInterval(x: seq<real>, y: seq<real>, perm: seq<nat>)
    requires |x| == |y|
    requires IsPermutation(perm, |x|)
    ensures forall k | 0 <= k < |x| :: 0.0 < SortedF(x, y, perm)[k] <= 1.0
  {
    var fo := XRankMaxOrdered(x, y, perm);
    var s := SortedF(x, y, perm);
    SortedFSorts(x, y, perm);
    XRankMaxOrderedInUnitInterval(x, y, perm);
    forall k | 0 <= k < |x| ensures 0.0 < s[k] <= 1.0 {
      assert s[k] in multiset(fo) by { assert s[k] in multiset(s); }
      var i :| 0 <= i < |fo| && fo[i] == s[k];
    }
  }

  /** numpy's cumsum: cq[k] is the sum of the first k + 1 entries. */
  function CumSum(s: seq<real>): (cq: seq<real>)
    ensures |cq| == |s|
    ensures forall k | 0 <= k < |s| :: cq[k] == Sum(s[..k + 1])
  {
    if |s| == 0 then []
    else
      var n := |s|;
      var init := CumSum(s[..n - 1]);
      var total := if n == 1 then 0.0 else init[n - 2];
      assert total == Sum(s[..n - 1]) by {
        if n > 1 { assert s[..n - 1][..n - 1] == s[..n - 1]; }
      }
      assert forall k | 0 <= k < n - 1 :: init[k] == Sum(s[..k + 1]) by {
        forall k | 0 <= k < n - 1 ensures init[k] == Sum(s[..k + 1]) {
          assert s[..n - 1][..k + 1] == s[..k + 1];
        }
      }
      assert s[..n][..n - 1] == s[..n - 1];
      init + [total + s[n - 1]]
  }

  /** The last cumulative sum is the total. */
  lemma CumSumTotal(s: seq<real>)
    requires |s| > 0
    ensures CumSum(s)[|s| - 1] == Sum(s)
  {
    assert s[..|s|] == s;
  }

  /** cq[n - 1], the last cumulative sum of the sorted rearranged f, is the
      sum of f itself. */
  lemma CumSumIsSumOfF(x: seq<real>, y: seq<real>, perm: seq<nat>)
    requires 1 <= |x| == |y|
    requires IsPermutation(perm, |x|)
    ensures CumSum(SortedF(x, y, perm))[|x| - 1] == Sum(YRankMax(y))
  {
    CumSumTotal(SortedF(x, y, perm));
    SortedFOnlyOnY(x, y, perm);
    SortAscSum(YRankMax(y));
  }

  /** The terms ind2[k] * s[k] * s[k] averaged in a: the terms of c, each
      multiplied by s[k] once more. */
  function ATerms(s: seq<real>): (t: seq<real>)
    ensures |t| == |s|
  {
    var c := CTerms(s);
    seq(|s|, k requires 0 <= k < |s| => c[k] * s[k])
  }

  /** The terms ind2[k] * s[k] averaged in c. */
  function CTerms(s: seq<real>): (t: seq<real>)
    ensures |t| == |s|
  {
    var w := Weights(|s|);
    seq(|s|, k requires 0 <= k < |s| => w[k] * s[k])
  }

  /** Every value lies in (0, 1], as every f does. */
  predicate InUnitInterval(s: seq<real>)
  {
    forall k | 0 <= k < |s| :: 0.0 < s[k] <= 1.0
  }

  /** a: the mean of ind2 * s^2, divided once more by n; in (0, 1] when every
      s[k] is. */
  function TieA(s: seq<real>): (a: real)
    requires |s| > 0
    ensures InUnitInterval(s) ==> 0.0 < a <= 1.0
  {
    var a := Mean(ATerms(s)) / (|s| as real);
    if InUnitInterval(s) then ATermsBound(s); a else a
  }

  /** c: the mean of ind2 * s, divided once more by n; in (0, 1] when every
      s[k] is. */
  function TieC(s: seq<real>): (c: real)
    requires |s| > 0
    ensures InUnitInterval(s) ==> 0.0 < c <= 1.0
  {
    var c := Mean(CTerms(s)) / (|s| as real);
    if InUnitInterval(s) then CTermsBound(s); c else c
  }

  /** A total divided by the sample size. */
  function PerSample(total: real, n: nat): real
    requires n > 0
  {
    total / (n as real)
  }

  /** m[k] = (cq[k] + (n - ind[k]) s[k]) / n. */
  function TieMEntry(s: seq<real>, k: nat): real
    requires k < |s|
  {
    PerSample(CumSum(s)[k] + ((|s| - Ind(|s|)[k]) as real) * s[k], |s|)
  }

  /** m: the entries m[k] for every k. */
  function TieM(s: seq<real>): (m: seq<real>)
    ensures |m| == |s|
  {
    seq(|s|, k requires 0 <= k < |s| => TieMEntry(s, k))
  }

  /** b: the mean of m^2. It is never negative, and on sorted s in (0, 1]
      it is at most 1. */
  function TieB(s: seq<real>): (b: real)
    requires |s| > 0
    ensures b >= 0.0
    ensures Sorted(s) && InUnitInterval(s) ==> b <= 1.0
  {
    var m := TieM(s);
    SquaresMeanBound(m);
    if Sorted(s) && InUnitInterval(s) then TieMBounds(s); Mean(Squares(m)) else Mean(Squares(m))
  }

  /** The row min(s[j], s[k]) over j. */
  function MinRow(s: seq<real>, k: nat): (r: seq<real>)
    requires k < |s|
    ensures |r| == |s|
  {
    seq(|s|, j requires 0 <= j < |s| => Min(s[j], s[k]))
  }

  /** On sorted s the row min(s[j], s[k]) is s up to k, then s[k] repeated. */
  lemma MinRowSplit(s: seq<real>, k: nat)
    requires Sorted(s) && k < |s|
    ensures MinRow(s, k) == s[..k + 1] + seq(|s| - k - 1, _ => s[k])
  {
    var row, rest := MinRow(s, k), seq(|s| - k - 1, _ => s[k]);
    forall j | 0 <= j < |s| ensures row[j] == (s[..k + 1] + rest)[j] {
      if j <= k {
        assert s[j] <= s[k];
      }
    }
  }

  lemma MinRowSum(s: seq<real>, k: nat)
    requires Sorted(s) && k < |s|
    ensures Sum(MinRow(s, k)) == Sum(s[..k + 1]) + ((|s| - k - 1) as real) * s[k]
  {
    MinRowSplit(s, k);
    SumAppend(s[..k + 1], seq(|s| - k - 1, _ => s[k]));
    SumConstant(|s| - k - 1, s[k]);
  }

  lemma TieMAt(s: seq<real>, k: nat)
    requires k < |s|
    ensures TieM(s)[k] == PerSample(Sum(s[..k + 1]) + ((|s| - k - 1) as real) * s[k], |s|)
  {
    assert TieM(s)[k] == TieMEntry(s, k);
    assert CumSum(s)[k] == Sum(s[..k + 1]);
    assert Ind(|s|)[k] == k + 1;
  }

  /** On sorted s, m[k] is the mean over j of min(s[j], s[k]): the cumulative
      sum covers the j up to k, and (n - k - 1) s[k] the j beyond it. */
  lemma MIsMinMean(s: seq<real>, k: nat)
    requires Sorted(s) && k < |s|
    ensures TieM(s)[k] == Sum(MinRow(s, k)) / (|s| as real)
  {
    MinRowSum(s, k);
    TieMAt(s, k);
  }

  /** A weight of at least 1 times one or two factors in (0, 1]. */
  lemma ScaleDown(w: real, a: real)
    requires 0.0 < w && 0.0 < a <= 1.0
    ensures 0.0 < w * a <= w
  {
  }


  /** The weight ind2[k] is at least 1. */
  lemma WeightAtLeastOne(n: nat, k: nat)
    requires k < n
    ensures Weights(n)[k] >= 1.0
  {
    Ind2Odd(n, k);
  }

  /** The k-th term of c lies between 0 and its weight. */
  lemma CTermBound(s: seq<real>, k: nat)
    requires k < |s| && 0.0 < s[k] <= 1.0
    ensures 0.0 < CTerms(s)[k] <= Weights(|s|)[k]
  {
    var w := Weights(|s|)[k];
    WeightAtLeastOne(|s|, k);
    ScaleDown(w, s[k]);
  }

  /** The k-th term of a lies between 0 and its weight. */
  lemma ATermBound(s: seq<real>, k: nat)
    requires k < |s| && 0.0 < s[k] <= 1.0
    ensures 0.0 < ATerms(s)[k] <= Weights(|s|)[k]
  {
    var c := CTerms(s)[k];
    CTermBound(s, k);
    ScaleDown(c, s[k]);
    assert ATerms(s)[k] == c * s[k];
  }

  lemma Ratio(s: real, n: nat)
    requires n > 0 && 0.0 < s <= (n * n) as real
    ensures 0.0 < s / (n as real) / (n as real) <= 1.0
  {
    var r := n as real;
    assert (n * n) as real == r * r;
    assert s / r <= r;
  }

  /** With every s[k] in (0, 1], the mean of ind2 * s over n lies in (0, 1]:
      each term is at most its weight, and the weights sum to n^2. */
  lemma CTermsBound(s: seq<real>)
    requires |s| > 0 && InUnitInterval(s)
    ensures 0.0 < Mean(CTerms(s)) / (|s| as real) <= 1.0
  {
    var n, w, t := |s|, Weights(|s|), CTerms(s);
    forall k | 0 <= k < n ensures 0.0 < t[k] <= w[k] {
      CTermBound(s, k);
    }
    SumPositive(t);
    SumMonotone(t, w);
    WeightsSum(n);
    Ratio(Sum(t), n);
  }

  /** With every s[k] in (0, 1], the mean of ind2 * s^2 over n lies in (0, 1]. */
  lemma ATermsBound(s: seq<real>)
    requires |s| > 0 && InUnitInterval(s)
    ensures 0.0 < Mean(ATerms(s)) / (|s| as real) <= 1.0
  {
    var n, w, t := |s|, Weights(|s|), ATerms(s);
    forall k | 0 <= k < n ensures 0.0 < t[k] <= w[k] {
      ATermBound(s, k);
    }
    SumPositive(t);
    SumMonotone(t, w);
    WeightsSum(n);
    Ratio(Sum(t), n);
  }

  /** On sorted s in (0, 1], m[k] lies in (0, 1]. */
  lemma TieMBound(s: seq<real>, k: nat)
    requires Sorted(s) && k < |s|
    requires forall j | 0 <= j < |s| :: 0.0 < s[j] <= 1.0
    ensures 0.0 < TieM(s)[k] <= 1.0
  {
    var n, row := |s|, MinRow(s, k);
    assert forall j | 0 <= j < n :: 0.0 < row[j] <= 1.0;
    SumPositive(row);
    SumBounded(row, 1.0);
    MIsMinMean(s, k);
    MeanBound(Sum(row), n);
  }

  lemma SquareBound(m: seq<real>, k: nat)
    requires k < |m| && 0.0 < m[k] <= 1.0
    ensures 0.0 <= Squares(m)[k] <= 1.0
  {
    ScaleDown(m[k], m[k]);
  }

  lemma MeanBound(t: real, n: nat)
    requires n > 0 && 0.0 <= t <= (n as real) * 1.0
    ensures 0.0 <= t / (n as real) <= 1.0
    ensures 0.0 < t ==> 0.0 < t / (n as real)
  {
  }

  /** On sorted s in (0, 1], every m[k] lies in (0, 1]. */
  lemma TieMBounds(s: seq<real>)
    requires Sorted(s) && InUnitInterval(s)
    ensures InUnitInterval(TieM(s))
  {
    forall k | 0 <= k < |s| ensures 0.0 < TieM(s)[k] <= 1.0 {
      TieMBound(s, k);
    }
  }

  /** The mean of squares is non-negative, and at most 1 for values in (0, 1]. */
  lemma SquaresMeanBound(m: seq<real>)
    requires |m| > 0
    ensures Mean(Squares(m)) >= 0.0
    ensures InUnitInterval(m) ==> Mean(Squares(m)) <= 1.0
  {
    var n, sq := |m|, Squares(m);
    forall k | 0 <= k < n ensures sq[k] >= 0.0 {
      assert sq[k] == m[k] * m[k];
    }
    SumNonNegative(sq);
    if InUnitInterval(m) {
      forall k | 0 <= k < n ensures 0.0 <= sq[k] <= 1.0 {
        SquareBound(m, k);
      }
      SumBounded(sq, 1.0);
      MeanBound(Sum(sq), n);
    } else {
      NonNegativeMean(Sum(sq), n);
    }
  }

  lemma NonNegativeMean(t: real, n: nat)
    requires n > 0 && t >= 0.0
    ensures t / (n as real) >= 0.0
  {
  }

  lemma SquarePositive(a: real)
    requires a != 0.0
    ensures a * a > 0.0
  {
    if a < 0.0 {
      assert a * a == (-a) * (-a);
    }
  }

  /** Dividing by a non-zero square and multiplying back gives the numerator. */
  lemma DivideBySquare(t: real, a: real)
    requires a != 0.0
    ensures a * a != 0.0
    ensures t / (a * a) * (a * a) == t
  {
    SquarePositive(a);
  }

  /** The kernel t[min(i, j)]: row i, column j holds the value at the
      smaller of the two indices. On sorted values this is min(s[i], s[j]). */
  function LowerKernel(t: seq<real>): (K: seq<seq<real>>)
    ensures |K| == |t| && IsMatrix(K, |t|)
  {
    seq(|t|, i requires 0 <= i < |t| => seq(|t|, j requires 0 <= j < |t| => t[if i <= j then i else j]))
  }

  /** Dropping the last index adds 2 to every other weight. */
  lemma WeightsStep(n: nat, k: nat)
    requires k + 1 < n
    ensures Weights(n)[k] == Weights(n - 1)[k] + 2.0
  {
    assert Ind(n)[k] == k + 1 && Ind(n - 1)[k] == k + 1;
  }

  lemma Distribute(w: real, w': real, x: real)
    requires w == w' + 2.0
    ensures w * x == w' * x + 2.0 * x
  {
  }

  /** The terms of c over n values: those of the first n - 1 values, each
      with 2 s[k] more, and s[n - 1] once. */
  lemma CTermsStep(t: seq<real>, n: nat)
    requires n == |t| > 0
    ensures Sum(CTerms(t)) == Sum(CTerms(t[..n - 1])) + 2.0 * Sum(t[..n - 1]) + t[n - 1]
  {
    CTermsInit(t, n);
    assert CTerms(t)[n - 1] == t[n - 1] by { Ind2Odd(n, n - 1); }
  }

  /** The first n - 1 terms of c over n values: those over n - 1 values,
      each with 2 t[k] more. */
  lemma CTermsShift(t: seq<real>, n: nat)
    requires n == |t| > 0
    ensures SumOfTerms(CTerms(t)[..n - 1], CTerms(t[..n - 1]), Doubled(t[..n - 1]))
  {
    var c, c', d := CTerms(t), CTerms(t[..n - 1]), Doubled(t[..n - 1]);
    forall k | 0 <= k < n - 1 ensures c[k] == c'[k] + d[k] {
      WeightsStep(n, k);
      Distribute(Weights(n)[k], Weights(n - 1)[k], t[k]);
    }
  }

  /** The first n - 1 terms of c over n values sum to the c total over n - 1
      values plus twice their sum. */
  lemma CTermsInit(t: seq<real>, n: nat)
    requires n == |t| > 0
    ensures Sum(CTerms(t)[..n - 1]) == Sum(CTerms(t[..n - 1])) + 2.0 * Sum(t[..n - 1])
  {
    CTermsShift(t, n);
    SumOfSum(CTerms(t)[..n - 1], CTerms(t[..n - 1]), Doubled(t[..n - 1]));
    SumOfScaled(Doubled(t[..n - 1]), t[..n - 1], 2.0);
  }

  /** Every row of the kernel over n values: the row over the first n - 1
      values, then t[i]. The last row is t itself. */
  lemma KernelRowStep(t: seq<real>, n: nat, i: nat)
    requires n == |t| && i + 1 < n
    ensures LowerKernel(t)[i] == LowerKernel(t[..n - 1])[i] + [t[i]]
  {
  }

  lemma KernelLastRow(t: seq<real>, n: nat)
    requires n == |t| > 0
    ensures LowerKernel(t)[n - 1] == t
  {
  }

  /** The kernel total over n values: the total over the first n - 1 values,
      2 t[i] more for every i < n - 1, and t[n - 1]. */
  lemma KernelTotalStep(t: seq<real>, n: nat)
    requires n == |t| > 0
    ensures Sum(RowTotals(LowerKernel(t))) == Sum(RowTotals(LowerKernel(t[..n - 1]))) + 2.0 * Sum(t[..n - 1]) + t[n - 1]
  {
    var t' := t[..n - 1];
    var r, r' := RowTotals(LowerKernel(t)), RowTotals(LowerKernel(t'));
    forall i | 0 <= i < n - 1 ensures r[..n - 1][i] == r'[i] + t'[i] {
      KernelRowStep(t, n, i);
      SumAppend(LowerKernel(t')[i], [t[i]]);
      SumSingleton(t[i]);
    }
    SumOfSum(r[..n - 1], r', t');
    KernelLastRow(t, n);
    assert r[n - 1] == Sum(t);
  }

  /** Summed over all pairs (i, j), t[min(i, j)] is the sum of ind2[k] t[k]:
      ind2[k] = 2(n - k) - 1 counts the pairs whose smaller index is k. */
  lemma {:induction false} KernelTotal(t: seq<real>)
    ensures Sum(RowTotals(LowerKernel(t))) == Sum(CTerms(t))
  {
    var n := |t|;
    if n > 0 {
      KernelTotal(t[..n - 1]);
      KernelTotalStep(t, n);
      CTermsStep(t, n);
    }
  }

  /** On sorted values row i of the kernel is the row min(s[j], s[i]). */
  lemma SortedKernelRow(s: seq<real>, i: nat)
    requires Sorted(s) && i < |s|
    ensures LowerKernel(s)[i] == MinRow(s, i)
  {
    forall j | 0 <= j < |s| ensures LowerKernel(s)[i][j] == MinRow(s, i)[j] {
      if i <= j {
        assert s[i] <= s[j];
      }
    }
  }

  /** On sorted values m[i] is the mean of row i of the kernel. */
  lemma KernelRowMean(s: seq<real>, i: nat)
    requires Sorted(s) && i < |s|
    ensures TieM(s)[i] == Mean(LowerKernel(s)[i])
  {
    SortedKernelRow(s, i);
    MIsMinMean(s, i);
  }

  /** Squaring every entry of the kernel is the kernel of the squares. */
  lemma KernelOfSquares(s: seq<real>, i: nat)
    requires i < |s|
    ensures Squares(LowerKernel(s)[i]) == LowerKernel(Squares(s))[i]
  {
    forall j | 0 <= j < |s| ensures Squares(LowerKernel(s)[i])[j] == LowerKernel(Squares(s))[i][j] {
      var l := if i <= j then i else j;
      var v := LowerKernel(s)[i][j];
      assert v == s[l];
      assert Squares(LowerKernel(s)[i])[j] == v * v;
      assert LowerKernel(Squares(s))[i][j] == s[l] * s[l];
    }
  }

  lemma Associate(w: real, x: real)
    ensures (w * x) * x == w * (x * x)
  {
  }

  /** The terms of a are the terms of c taken on the squares. */
  lemma ATermsOfSquares(s: seq<real>)
    ensures ATerms(s) == CTerms(Squares(s))
  {
    forall k | 0 <= k < |s| ensures ATerms(s)[k] == CTerms(Squares(s))[k] {
      Associate(Weights(|s|)[k], s[k]);
    }
  }

  /** The sum of the squared kernel over all pairs is n^2 a: a is the mean of
      min(s[i], s[j])^2 over the pairs. */
  lemma SquaredKernelTotal(s: seq<real>)
    ensures Sum(RowTotals(LowerKernel(Squares(s)))) == Sum(ATerms(s))
  {
    KernelTotal(Squares(s));
    ATermsOfSquares(s);
  }

  /** The mean of an n x n matrix over its n^2 entries. */
  function PairMean(K: seq<seq<real>>): real
    requires |K| > 0
  {
    Sum(RowTotals(K)) / (|K| as real) / (|K| as real)
  }

  /** The mean of each row of an n x n matrix. */
  function RowMeans(K: seq<seq<real>>): (r: seq<real>)
    requires |K| > 0 && IsMatrix(K, |K|)
    ensures |r| == |K| && forall i | 0 <= i < |K| :: r[i] == Mean(K[i])
  {
    seq(|K|, i => if 0 <= i < |K| then Mean(K[i]) else 0.0)
  }

  /** On sorted values m holds the row means of the kernel. */
  lemma KernelRowMeans(s: seq<real>)
    ensures Sorted(s) && |s| > 0 ==> TieM(s) == RowMeans(LowerKernel(s))
  {
    if Sorted(s) && |s| > 0 {
      forall i | 0 <= i < |s| ensures TieM(s)[i] == RowMeans(LowerKernel(s))[i] {
        KernelRowMean(s, i);
      }
    }
  }

  /** c is the mean of the kernel over all n^2 pairs (i, j). */
  lemma TieCIsKernelMean(s: seq<real>)
    requires |s| > 0
    ensures TieC(s) == PairMean(LowerKernel(s))
  {
    KernelTotal(s);
  }

  /** a is the mean of the squared kernel over all n^2 pairs (i, j). */
  lemma TieAIsSquaredKernelMean(s: seq<real>)
    requires |s| > 0
    ensures TieA(s) == PairMean(LowerKernel(Squares(s)))
  {
    SquaredKernelTotal(s);
  }

  /** v = (a - 2b + c^2) / inverse_g_mean^2 for the sorted values s:
      multiplied back by inverse_g_mean^2 it is a - 2b + c^2. */
  function TieV(s: seq<real>, igm: real): (v: real)
    requires |s| > 0 && igm != 0.0
    ensures v * (igm * igm) == TieA(s) - 2.0 * TieB(s) + TieC(s) * TieC(s)
  {
    var c := TieC(s);
    var num := TieA(s) - 2.0 * TieB(s) + c * c;
    DivideBySquare(num, igm);
    num / (igm * igm)
  }

  /** a - 2b + c^2, the numerator of v. */
  function Numerator(a: real, b: real, c: real): real
  {
    a - 2.0 * b + c * c
  }

  /** The numerator with a and c read as kernel means. */
  lemma NumeratorKernelForm(s: seq<real>)
    requires |s| > 0
    ensures Numerator(TieA(s), TieB(s), TieC(s)) == Numerator(PairMean(LowerKernel(Squares(s))), TieB(s), PairMean(LowerKernel(s)))
  {
    TieCIsKernelMean(s);
    TieAIsSquaredKernelMean(s);
  }

  /** v in terms of the kernel phi(i, j) = s[min(i, j)]: multiplied back by
      inverse_g_mean^2 it is the mean of phi^2 over all pairs, less twice
      the mean of m^2, plus the square of the mean of phi. */
  lemma TieVKernelForm(s: seq<real>, igm: real)
    requires |s| > 0 && igm != 0.0
    ensures TieV(s, igm) * (igm * igm) == Numerator(PairMean(LowerKernel(Squares(s))), TieB(s), PairMean(LowerKernel(s)))
  {
    NumeratorKernelForm(s);
  }

  /** On sorted values phi(i, j) = min(s[i], s[j]) and m holds its row
      means, so v depends on the kernel alone. */
  lemma TieVSortedKernelForm(s: seq<real>, igm: real)
    requires |s| > 0 && igm != 0.0 && Sorted(s)
    ensures TieV(s, igm) * (igm * igm)
      == Numerator(PairMean(LowerKernel(Squares(s))), Mean(Squares(RowMeans(LowerKernel(s)))), PairMean(LowerKernel(s)))
  {
    TieVKernelForm(s, igm);
    KernelRowMeans(s);
  }

  /** The tie-corrected variance on the sorted rearranged f. Sorting undoes
      the rearrangement, so v is the one computed from sorted f: neither x nor
      the shuffle changes it. */
  function Variance(x: seq<real>, y: seq<real>, perm: seq<nat>): (v: real)
    requires |x| == |y|
    requires IsPermutation(perm, |x|)
    requires !Constant(y)
    ensures v == TieV(SortAsc(YRankMax(y)), InverseGMean(y))
  {
    NotConstantHasTwo(y);
    SortedFOnlyOnY(x, y, perm);
    TieV(SortedF(x, y, perm), InverseGMean(y))
  }

  /** The tie-corrected variance is a function of y alone: neither x nor the
      shuffle drawn when x_rank_max_ordered is read changes it. */
  lemma VarianceOnlyOnY(x1: seq<real>, x2: seq<real>, y: seq<real>, p1: seq<nat>, p2: seq<nat>)
    requires |x1| == |y| && |x2| == |y|
    requires IsPermutation(p1, |y|) && IsPermutation(p2, |y|)
    requires !Constant(y)
    ensures Variance(x1, y, p1) == Variance(x2, y, p2)
  {
    SortedFOnlyOnY(x1, y, p1);
    SortedFOnlyOnY(x2, y, p2);
  }

  /** The terms a and c of the variance lie in (0, 1], and b in [0, 1]. */
  lemma VarianceTermBounds(x: seq<real>, y: seq<real>, perm: seq<nat>)
    requires 1 <= |x| == |y|
    requires IsPermutation(perm, |x|)
    ensures var s := SortedF(x, y, perm);
      0.0 < TieA(s) <= 1.0 && 0.0 <= TieB(s) <= 1.0 && 0.0 < TieC(s) <= 1.0
  {
    var s := SortedF(x, y, perm);
    SortedFSorts(x, y, perm);
    SortedFInUnitInterval(x, y, perm);
  }

  /** The variance pval_asymptotic uses: with ties = True the code takes the
      simple 2/5, with ties = False the tie-corrected v. */
  function AsymptoticVariance(ties: bool, x: seq<real>, y: seq<real>, perm: seq<nat>): real
    requires |x| == |y|
    requires IsPermutation(perm, |x|)
    requires !Constant(y)
  {
    if ties then 0.4 else Variance(x, y, perm)
  }

  /** pval_asymptotic: tail(n, xi, v) stands for 1 - Phi(sqrt(n) xi / sqrt(v)).
      `perm` is the shuffle the correlation draws, `vperm` the one drawn when
      the variance reads x_rank_max_ordered. */
  function PValAsymptotic(ties: bool, x: seq<real>, y: seq<real>, perm: seq<nat>, vperm: seq<nat>,
                          tail: (nat, real, real) -> real): (p: real)
    requires |x| == |y|
    requires IsPermutation(perm, |x|) && IsPermutation(vperm, |x|)
    requires !Constant(y)
    ensures ties ==> p == tail(|x|, Correlation(x, y, perm), 0.4)
    ensures !ties ==> p == tail(|x|, Correlation(x, y, perm), TieV(SortAsc(YRankMax(y)), InverseGMean(y)))
  {
    tail(|x|, Correlation(x, y, perm), AsymptoticVariance(ties, x, y, vperm))
  }

  /** The p-value depends on the shuffles only through xi: the shuffle drawn
      for the variance never matters, and with ties = True the variance is 2/5. */
  lemma PValOnlyThroughXi(ties: bool, x: seq<real>, y: seq<real>, perm: seq<nat>,
                          v1: seq<nat>, v2: seq<nat>, tail: (nat, real, real) -> real)
    requires |x| == |y|
    requires IsPermutation(perm, |x|) && IsPermutation(v1, |x|) && IsPermutation(v2, |x|)
    requires !Constant(y)
    ensures PValAsymptotic(ties, x, y, perm, v1, tail) == PValAsymptotic(ties, x, y, perm, v2, tail)
    ensures ties ==> PValAsymptotic(ties, x, y, perm, v1, tail) == tail(|x|, Correlation(x, y, perm), 0.4)
  {
    if !ties {
      VarianceOnlyOnY(x, x, y, v1, v2);
    }
  }
}
