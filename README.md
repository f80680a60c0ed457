# selectio: Chatterjee's xi coefficient and the multi-model vote, in Dafny

This project models the core of `selectio`, a feature-selection package, in Dafny.

**The xi engine (`selectio/models/xicor.py`).** This is Chatterjee's rank correlation ξ (arXiv:1909.10140) and its asymptotic p-value. A `Xicor` object holds a pair of aligned samples `x`, `y`. It subsamples them to at most 1000 observations, drawing one set of indices for both. From the pair it derives these rank vectors:

- `x_ordered_rank`: ordinal ranks of `x`. Ties are broken by a random shuffle of the positions.
- `f = y_rank_max`: #{j : y[j] ≤ y[i]} / n.
- `g`: #{j : y[j] ≥ y[i]} / n.
- `x_ordered`: the argsort of the ranks.
- `x_rank_max_ordered`: `f` re-ordered along `x_ordered`.

Three quantities follow:

- `mean_absolute`: the mean absolute increment of the re-ordered `f`, times (n−1)/(2n).
- `inverse_g_mean`: the mean of g(1−g).
- `correlation`: ξ = 1 − mean_absolute / inverse_g_mean.

`pval_asymptotic` uses the variance 2/5 when `ties=True`. When `ties=False` it uses the tie-corrected variance v = (a − 2b + c²)/inverse_g_mean². `factor_importance` scores every column of a feature matrix by ξ. It sets to 0 every score whose p-value is above 0.01, then optionally normalises the scores to sum 1.

**The vote (`selectio/selectio.py`).** `Fsel.eval_score` marks a feature as accepted by one model when its score is at least `woe_min` (0.05) times the model's total score. `Fsel.score_models` adds up the acceptances over the models. It selects a feature when its count is at least `nfeatures / 2`.

Modules, one per component:

- `SeqUtil` (seq_util.dfy): exact-real sums and means, permutations as index sequences, numpy fancy indexing, sorting by insertion.
- `Ranks` (ranks.dfy): the rank transforms. scipy's `rankdata` is specified by what it counts. "ordinal" is 1 plus the number of positions a stable sort puts first. "max" is the number of positions with a value at most this one.
- `XiStatistic` (xi_statistic.dfy): `mean_absolute`, `inverse_g_mean`, `correlation`.
- `XiAsWritten` (xi_as_written.dfy): `mean_absolute` as the code is written, with two shuffles (see Findings).
- `TieVariance` (tie_variance.dfy): `ind`, `ind2`, `a`, `c`, `cq`, `m`, `b`, `v` and the p-value.
- `Xicor` (xicor.dfy): the class `Xicor` with its in-place `stochastic_sample`, and `factor_importance` as a method with a loop over the columns.
- `Selectio` (selectio.dfy): the class `Fsel` with `EvalScore` and `ScoreModels`.

Values are exact: ranks are `nat` counts, and the scaled ranks and statistics are `real`. Randomness becomes arguments:

- The shuffle drawn by `np.random.choice` at xicor.py:105 becomes a permutation `perm` (`IsPermutation`).
- The subsample drawn at xicor.py:90 becomes a list of distinct in-range indices (`IsSampleDraw`).
- Every read of `x_rank_max_ordered` in the source draws a fresh shuffle. For one column the source draws up to six times:
  - the subsample (xicor.py:90), drawn only when n exceeds the threshold (xicor.py:89);
  - two shuffles for the `correlation` read at xicor.py:42, because `mean_absolute` reads `x_rank_max_ordered` twice (xicor.py:143-144);
  - one shuffle for the variance at xicor.py:192;
  - two shuffles for the `correlation` read at xicor.py:218.
- A `ColumnDraw` carries up to four draws: the subsample (read only when n exceeds the threshold), one shuffle per `correlation` read, and the variance's shuffle. Each `correlation` read uses one shuffle for both slices. This is the corrected ξ of the Finding below. `XiAsWritten` models the two-shuffle reading.

The normal tail 1 − Φ(√n·ξ/√v) is a function parameter `tail(n, ξ, v)`.

Where the code and its docstrings differ, the model follows the code:

- The docstring of `pval_asymptotic` (xicor.py:170-174) says `ties=True` uses the more elaborate theory. The code does the reverse: `ties=True` selects the simple variance 2/5 (xicor.py:183-186), and `ties=False`, which `factor_importance` passes (xicor.py:43), selects the tie-corrected variance.
- The module docstring promises a "majority vote of all models" (selectio.py:6). The code compares the count with `nfeatures/2`, not with half the number of models (selectio.py:94). `ScoreModels` models the code. The vote over half the models is given beside it as a reference (see Findings).

Nothing guards the division by `inverse_g_mean` (xicor.py:160). The model requires that `y` (after subsampling) is not constant, and proves that this is exactly the case where `inverse_g_mean` is non-zero.

## Model

| member | source | states |
|---|---|---|
| `SeqUtil.SortAscSorts` | selectio/models/xicor.py:192 | `sorted` returns an ascending rearrangement (same multiset) of its input |
| `SeqUtil.SortAscSum` | selectio/models/xicor.py:192 | sorting keeps the sum |
| `Ranks.OrdinalRankIsRanking` | selectio/models/xicor.py:108 | rankdata "ordinal" gives every rank 1..n exactly once |
| `Ranks.OrdinalRankStrict` | selectio/models/xicor.py:108 | ordinal ranks follow value order, and among equal values position order |
| `Ranks.XOrderedRank` | selectio/models/xicor.py:99-113 | x_ordered_rank for a given shuffle, of length n; its properties are in XOrderedRankIsRanking, XOrderedRankUnshuffles and XOrderedRankOrder |
| `Ranks.XOrderedRankIsRanking` | selectio/models/xicor.py:104-113 | for every shuffle, x_ordered_rank is a permutation of 1..n |
| `Ranks.XOrderedRankUnshuffles` | selectio/models/xicor.py:109-112 | un-shuffling: result[perm[j]] is the ordinal rank of shuffled position j |
| `Ranks.XOrderedRankOrder` | selectio/models/xicor.py:104-113 | rank[i] < rank[j] iff x[i] < x[j], or x[i] = x[j] and i comes first in the shuffled order |
| `Ranks.ReorderRanking` | selectio/models/xicor.py:110-112 | rearranging a ranking by a permutation gives a ranking |
| `Ranks.YRankMax` | selectio/models/xicor.py:115-118 | f, of length n; its properties are in YRankMaxCounts, YRankMaxOrder and YRankMaxOfLargest |
| `Ranks.YRankMaxCounts` | selectio/models/xicor.py:116-118 | n·f[i] = #{j : y[j] ≤ y[i]}, which lies in 1..n; f[i] ∈ (0,1], and it is 1 iff the count is n |
| `Ranks.YRankMaxOrder` | selectio/models/xicor.py:116-118 | equal y values get equal f; a smaller y gets a strictly smaller f |
| `Ranks.YRankMaxOfLargest` | selectio/models/xicor.py:116-118 | f[i] = 1 exactly when y[i] is a largest value |
| `Ranks.G` | selectio/models/xicor.py:120-123 | g, of length n; its properties are in GCountsAtLeast and GOfSmallest |
| `Ranks.GCountsAtLeast` | selectio/models/xicor.py:121-123 | n·g[i] = #{j : y[j] ≥ y[i]} (the max-rank of −y), which lies in 1..n; g[i] ∈ (0,1] |
| `Ranks.GOfSmallest` | selectio/models/xicor.py:121-123 | g[i] = 1 exactly when y[i] is a smallest value |
| `Ranks.ArgSortPermutes` | selectio/models/xicor.py:126-128 | argsort of a ranking is a permutation of 0..n−1 whose position k holds the index of rank k+1 |
| `Ranks.ArgSortInverts` | selectio/models/xicor.py:126-128 | argsort inverts the ranking: ord[r[i]−1] = i |
| `Ranks.XOrdered` | selectio/models/xicor.py:125-128 | x_ordered, of length n; its properties are in XOrderedPermutes, XOrderedSortsX and XOrderedWithoutTies |
| `Ranks.XOrderedPermutes` | selectio/models/xicor.py:126-128 | x_ordered lists every position of x exactly once |
| `Ranks.XOrderedSortsX` | selectio/models/xicor.py:99-128 | x[x_ordered[k]] is nondecreasing in k, and x_ordered is the inverse of x_ordered_rank in both directions |
| `Ranks.XOrderedWithoutTies` | selectio/models/xicor.py:104-128 | without ties in x the shuffle does not change x_ordered |
| `Ranks.XRankMaxOrdered` | selectio/models/xicor.py:130-133 | f re-ordered along x_ordered, of length n; its properties are in XRankMaxOrderedPermutesF and XRankMaxOrderedInUnitInterval |
| `Ranks.XRankMaxOrderedPermutesF` | selectio/models/xicor.py:131-133 | x_rank_max_ordered has the same multiset of values as f |
| `XiStatistic.IncrementMeanIsSum` | selectio/models/xicor.py:136-151 | mean of the n−1 increments times (n−1)/(2n) equals their sum over 2n |
| `XiStatistic.XRankMaxOrderedInUnitInterval` | selectio/models/xicor.py:131-133 | every entry of the re-ordered f lies in (0,1] |
| `XiStatistic.MeanAbsolute` | selectio/models/xicor.py:136-151 | mean_absolute = (Σₖ \|f_ord[k+1] − f_ord[k]\|)/(2n), and lies in [0, (n−1)/(2n)] |
| `XiStatistic.MeanAbsolutePositive` | selectio/models/xicor.py:136-151 | mean_absolute is positive when y is not constant |
| `XiStatistic.GTermBounds` | selectio/models/xicor.py:155 | each term g(1−g) lies in [0, 1/4] and is 0 exactly at a smallest y |
| `XiStatistic.InverseGMean` | selectio/models/xicor.py:154-155 | inverse_g_mean lies in [0, 1/4] and is 0 exactly when y is constant |
| `XiStatistic.ConstantIffAllSmallest` | selectio/models/xicor.py:154-155 | y is constant iff every g(1−g) term vanishes |
| `XiStatistic.Correlation` | selectio/models/xicor.py:158-160 | for non-constant y, ξ = 1 − mean_absolute/inverse_g_mean is strictly below 1 |
| `XiAsWritten.MeanAbsoluteAsWritten` | selectio/models/xicor.py:136-151 | mean_absolute as written: the two slices come from two independent shuffles; the result is ≥ 0 |
| `XiAsWritten.CorrelationAsWritten` | selectio/models/xicor.py:158-160 | ξ over the as-written mean_absolute is at most 1 |
| `XiAsWritten.AsWrittenAgreesWithoutTies` | selectio/models/xicor.py:136-151 | without ties in x, the as-written mean_absolute equals the single-shuffle one |
| `XiAsWritten.AsWrittenDiffersUnderTies` | selectio/models/xicor.py:136-160 | for x = [0,0], y = [0,1], every single shuffle gives ξ = 0, but two mixed shuffles give ξ = 1 |
| `TieVariance.Ind2Odd` | selectio/models/xicor.py:194-195 | ind2 runs through the odd numbers 2n−1, 2n−3, …, 1 |
| `TieVariance.WeightsSum` | selectio/models/xicor.py:195 | the ind2 weights sum to n² |
| `TieVariance.SortedFSorts` | selectio/models/xicor.py:192 | sorted_ordered_x_rank is ascending and a rearrangement of x_rank_max_ordered |
| `TieVariance.SortedFOnlyOnY` | selectio/models/xicor.py:192 | the sorted re-ordered f is the sorted f, whatever x and the shuffle are |
| `TieVariance.SortedFInUnitInterval` | selectio/models/xicor.py:192 | every sorted value lies in (0,1] |
| `TieVariance.CumSum` | selectio/models/xicor.py:207 | cq[k] is the sum of the first k+1 sorted values |
| `TieVariance.CumSumTotal` | selectio/models/xicor.py:207 | the last cumulative sum is the total |
| `TieVariance.CumSumIsSumOfF` | selectio/models/xicor.py:192-207 | cq[n−1] = Σf |
| `TieVariance.TieM` | selectio/models/xicor.py:209-212 | m, one entry per sorted value; its meaning is in TieMAt, MIsMinMean and TieMBounds |
| `TieVariance.TieMAt` | selectio/models/xicor.py:209-212 | m[k] = (cq[k] + (n−k−1)·s[k])/n |
| `TieVariance.MIsMinMean` | selectio/models/xicor.py:209-212 | on the sorted values, m[k] is the mean over j of min(s[j], s[k]) |
| `TieVariance.TieA` | selectio/models/xicor.py:197-200 | a (mean of ind2·s², divided by n again) lies in (0,1] when every s[k] does; the bound is proved in ATermsBound |
| `TieVariance.ATermsBound` | selectio/models/xicor.py:197-200 | each term is at most its ind2 weight, and the weights sum to n², so a ∈ (0,1] |
| `TieVariance.TieC` | selectio/models/xicor.py:202-205 | c (mean of ind2·s, divided by n again) lies in (0,1] when every s[k] does; the bound is proved in CTermsBound |
| `TieVariance.CTermsBound` | selectio/models/xicor.py:202-205 | each term is at most its ind2 weight, and the weights sum to n², so c ∈ (0,1] |
| `TieVariance.TieMBounds` | selectio/models/xicor.py:209-212 | on sorted values in (0,1], every m[k] lies in (0,1] |
| `TieVariance.TieB` | selectio/models/xicor.py:214 | b = mean(m²) is ≥ 0, and ≤ 1 on sorted values in (0,1] |
| `TieVariance.TieV` | selectio/models/xicor.py:215 | v of line 215; its properties are in TieVKernelForm, TieVSortedKernelForm, Variance, VarianceOnlyOnY and VarianceTermBounds |
| `TieVariance.CTermsStep` | selectio/models/xicor.py:195-205 | extending s by one value x raises Σ ind2·s by 2·Σs + x: each earlier weight grows by 2 and the new weight is 1 |
| `TieVariance.KernelTotal` | selectio/models/xicor.py:195-205 | Σ ind2[k]·s[k] equals the sum over all pairs (i, j) of s[min(i, j)] |
| `TieVariance.TieCIsKernelMean` | selectio/models/xicor.py:202-205 | c is the mean over all n² pairs (i, j) of s[min(i, j)] |
| `TieVariance.TieAIsSquaredKernelMean` | selectio/models/xicor.py:197-200 | a is the mean over all n² pairs (i, j) of s[min(i, j)]² |
| `TieVariance.KernelRowMean` | selectio/models/xicor.py:207-212 | on sorted values, m[i] is the mean of row i of the pair kernel s[min(i, j)] |
| `TieVariance.KernelRowMeans` | selectio/models/xicor.py:207-214 | on sorted values, m is the vector of row means of the pair kernel, so b is the mean of its squared row means |
| `TieVariance.NumeratorKernelForm` | selectio/models/xicor.py:197-215 | the numerator a − 2b + c² equals (kernel mean of squares) − 2b + (kernel mean)² |
| `TieVariance.TieVKernelForm` | selectio/models/xicor.py:197-215 | v·inverse_g_mean² = (pair mean of s[min(i,j)]²) − 2b + (pair mean of s[min(i,j)])² |
| `TieVariance.TieVSortedKernelForm` | selectio/models/xicor.py:192-215 | on the sorted values, v·inverse_g_mean² is stated by the pair kernel s[min(i,j)] alone: its mean of squares, minus twice the mean of its squared row means, plus its squared mean |
| `TieVariance.Variance` | selectio/models/xicor.py:192-215 | the tie-corrected v on the sorted re-ordered f equals v on sorted f: x and the shuffle do not change it |
| `TieVariance.VarianceTermBounds` | selectio/models/xicor.py:192-214 | the a, b and c of the variance formula are bounded as above |
| `TieVariance.VarianceOnlyOnY` | selectio/models/xicor.py:192-215 | v = (a − 2b + c²)/inverse_g_mean² depends on y alone, not on x or the shuffle |
| `TieVariance.PValAsymptotic` | selectio/models/xicor.py:166-219 | the p-value is tail(n, ξ, 2/5) when ties=True, and tail(n, ξ, v of sorted f) when ties=False; the variance's shuffle does not matter |
| `TieVariance.PValOnlyThroughXi` | selectio/models/xicor.py:166-219 | the p-value does not depend on the variance's shuffle; with ties=True it uses the variance 2/5 |
| `Xicor.SubsampleKeepsPairs` | selectio/models/xicor.py:84-92 | up to the threshold x, y are unchanged; above it both have length threshold and (x[k], y[k]) is the original pair at idx[k] |
| `Xicor.Xicor.constructor` | selectio/models/xicor.py:73-82 | the new object holds the data subsampled by one shared draw |
| `Xicor.Xicor.StochasticSample` | selectio/models/xicor.py:84-92 | fields become the subsample at idx when n exceeds the threshold, else stay unchanged |
| `Xicor.ColumnCorrelation` | selectio/models/xicor.py:41-42 | a column's ξ on its subsample is below 1 |
| `Xicor.ScoreColumn` | selectio/models/xicor.py:41-43 | one loop pass returns the column's ξ and its ties=False p-value |
| `Xicor.ScoreColumns` | selectio/models/xicor.py:37-43 | the loop fills corr and pvals with one entry per column |
| `Xicor.FactorImportance` | selectio/models/xicor.py:23-51 | the result is the masked scores, normalised when norm is set |
| `Xicor.Masked` | selectio/models/xicor.py:45 | `corr[pvals>0.01] = 0`, one entry per column; its entries are in MaskedEntries |
| `Xicor.MaskedEntries` | selectio/models/xicor.py:45 | a score is 0 when its p-value exceeds 0.01, and is xi otherwise |
| `Xicor.Normalized` | selectio/models/xicor.py:46-50 | the normalised scores, one per column; their properties are in NormalizedSumsToOne and NormalizedIdempotent |
| `Xicor.NormalizedSumsToOne` | selectio/models/xicor.py:46-50 | a positive sum normalises to scores summing to 1 in the same proportions; otherwise all zeros |
| `Xicor.NormalizedIdempotent` | selectio/models/xicor.py:46-50 | normalising twice equals normalising once |
| `Xicor.FinishProperties` | selectio/models/xicor.py:44-51 | p-value > 0.01 gives exactly 0; with norm the sum is 1 or all are 0; without norm the kept scores are the ξ values |
| `Xicor.UnnormalizedBelowOne` | selectio/models/xicor.py:40-45 | without norm every score is below 1 |
| `Selectio.Fsel.constructor` | selectio/selectio.py:59-68 | Fsel stores X and y, nfeatures is the column count, and the table starts with empty columns |
| `Selectio.Fsel.EvalScore` | selectio/selectio.py:99-113 | returns a fresh vector of the same length, 1 exactly where score ≥ woe_min·Σscore and 0 elsewhere |
| `Selectio.Fsel.ScoreModels` | selectio/selectio.py:71-96 | stores each model's scores and acceptances, and selects by the vote over the summed acceptances |
| `Selectio.Woe` | selectio/selectio.py:109-113 | one model's acceptance vector, one entry per feature; its entries are in WoeAccepts |
| `Selectio.Counts` | selectio/selectio.py:79-89 | count_select after the model loop, one entry per feature; its meaning is in CountsAreVoters and CountBounds |
| `Selectio.MajorityVote` | selectio/selectio.py:93-94 | `select[count_select >= nfeatures/2] = 1`, one entry per feature; its entries are in MajorityIff |
| `Selectio.WoeAccepts` | selectio/selectio.py:109-113 | woe[i] ∈ {0,1}, and woe[i] = 1 iff score[i] ≥ woe_min·Σscore |
| `Selectio.AcceptanceMonotone` | selectio/selectio.py:110-112 | if score[i] ≥ score[j] and j is accepted, then i is accepted |
| `Selectio.AllZeroAllAccepted` | selectio/selectio.py:109-112 | with every score 0, every feature is accepted |
| `Selectio.CountsAreVoters` | selectio/selectio.py:79-89 | count_select[j] is the number of models that accept feature j |
| `Selectio.CountBounds` | selectio/selectio.py:79-89 | every count lies in 0..nmodels |
| `Selectio.MajorityIff` | selectio/selectio.py:93-94 | select[j] ∈ {0,1}, and it is 1 iff 2·count[j] ≥ nfeatures |
| `Selectio.SelectedIffEnoughVoters` | selectio/selectio.py:79-95 | a feature is selected iff at least nfeatures/2 models accept it, and every other entry is 0 |
| `Selectio.NoSelectionWhenFeaturesOutnumber` | selectio/selectio.py:94 | with more than twice as many features as models, nothing is selected |
| `Selectio.UnanimousNotSelectedAsWritten` | selectio/selectio.py:94 | one model accepting all three of three features still selects none |
| `Selectio.ModelMajorityIff` | selectio/selectio.py:6 | the reference vote against nmodels/2: selected iff at least half the models accept |
| `Selectio.UnanimousSelected` | selectio/selectio.py:6 | under the reference vote, a feature that every model accepts is selected |

## Left out

- The normal CDF and the square roots of the p-value (xicor.py:184-186, 217-219) are floating-point special functions. The p-value is modelled up to the variance, and `tail` is a parameter.
- `np.random.choice` (xicor.py:90, 105): draws are arguments, and their well-formedness is a precondition.
- scipy's `rankdata` implementation: "ordinal" and "max" are specified by their counting definitions.
- The `nperm` argument of `pval_asymptotic` is never read.
- `sample_size` and the `xi` classmethod are trivial accessors. `sample_size` is `|x|` throughout.
- Floating-point rounding: all arithmetic is exact. The `np.round(corr, 4)` of the stored score column (selectio.py:85) is not modelled; the model stores the scores unrounded.
- `main` (selectio.py:116-194): YAML settings, argparse, CSV I/O, plotting and printing are I/O. So are the progress prints inside `score_models` (selectio.py:83, :90).
- Dynamic model discovery via `importlib` (selectio.py:45-49) is left out. The models' `factor_importance` results are inputs to `ScoreModels`. The pandas result table is a set of sequence fields.
- selectio/models/rdt.py and selectio/models/mi.py are wrappers over scikit-learn and are not part of this model.
- `XiStatistic.Correlation`, `Xicor.FactorImportance`: their precondition is that `y` after subsampling is not constant. The source divides by `inverse_g_mean` = 0 there and yields NaN.
- `Xicor.FactorImportance`: `np.empty` buffers start as zeros. Their initial contents are never read.
- `Xicor.ColumnCorrelation`: uses the corrected one-shuffle ξ from the Finding, not the two-shuffle value that xicor.py:42 computes through lines 143-144. The code as written only guarantees ξ ≤ 1 (`XiAsWritten.CorrelationAsWritten`). A tied column can give ξ = 1 (`XiAsWritten.AsWrittenDiffersUnderTies`), so the bound "< 1" holds only for the corrected ξ.
- `Xicor.ScoreColumn`: its ξ and the ξ inside its p-value are the corrected one-shuffle values. The code draws two shuffles for each of the reads at xicor.py:42 and :218.
- `Xicor.FactorImportance`: scores every column by the corrected one-shuffle ξ, not by the two-shuffle value that xicor.py:42 and :218 compute.
- `Xicor.UnnormalizedBelowOne`: "< 1" holds for the corrected ξ only. As written, a kept unnormalised score can be 1.
- `TieVariance.TieV`: v ≥ 0 (a − 2b + c² ≥ 0, the kernel being a covariance) is not proved. The model states v through the pair kernel s[min(i, j)] and bounds a, b and c, but does not prove the Cauchy–Schwarz step that makes the numerator non-negative.
- `TieVariance.PValAsymptotic`: `perm` is one shuffle for the `correlation` read at xicor.py:218, where the code draws two. The corrected ξ is used.

## Findings

| source | as written | input that shows it | evidently intended | confidence | as-written member | corrected member |
|---|---|---|---|---|---|---|
| selectio/selectio.py:94 | the count of accepting models is compared with `nfeatures/2`, while the docstring (selectio.py:6) promises a majority vote of all models | one model scoring three features 0.5, 0.25, 0.25 accepts all three, yet none is selected; with more than twice as many features as models nothing is ever selected | the count is compared with half the number of models | not executed | `Selectio.UnanimousNotSelectedAsWritten` | `Selectio.UnanimousSelected` |
| selectio/models/xicor.py:143-144 | `mean_absolute` reads the property `x_rank_max_ordered` twice, and each read draws a new tie-breaking shuffle (line 105). The two zipped slices can come from different orderings of x | x = [0, 0], y = [0, 1], shuffles [0, 1] and [1, 0]: ξ = 1 as written, while either single shuffle gives ξ = 0 | both slices come from one ordering of x | not executed | `XiAsWritten.AsWrittenDiffersUnderTies` | `XiStatistic.MeanAbsolute` |
