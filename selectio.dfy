/** Fsel: the multi-model vote. Each model's importance scores are turned into
    an acceptance vector (eval_score), the acceptances are counted per feature
    over the models, and a feature is selected when its count reaches half the
    number of features (score_models). The models' scores are inputs here. */
module Selectio {
  import opened SeqUtil

  /** eval_score's default minimum fractional contribution to the total score. */
  const WoeMin: real := 0.05

  /** Feature i is accepted when its score is at least woe_min times the total. */
  predicate Accepted(score: seq<real>, i: nat, woeMin: real)
    requires i < |score|
  {
    score[i] >= Sum(score) * woeMin
  }

  /** Entry i of the acceptance vector: 1 when feature i is accepted, else 0. */
  function WoeEntry(score: seq<real>, woeMin: real, i: nat): int
    requires i < |score|
  {
    if Accepted(score, i, woeMin) then 1 else 0
  }

  /** The acceptance vector of one model. */
  function Woe(score: seq<real>, woeMin: real): (w: seq<int>)
    ensures |w| == |score|
  {
    seq(|score|, i requires 0 <= i < |score| => WoeEntry(score, woeMin, i))
  }

  /** numpy's element-wise `+` on integer vectors of one length. */
  function AddCounts(a: seq<int>, b: seq<int>): (c: seq<int>)
    requires |a| == |b|
    ensures |c| == |a|
  {
    seq(|a|, k requires 0 <= k < |a| => a[k] + b[k])
  }

  function IntZeros(n: nat): (z: seq<int>)
    ensures |z| == n
  {
    seq(n, _ => 0)
  }

  /** Every model's scores cover the n features. */
  predicate Shaped(ms: seq<seq<real>>, n: nat)
  {
    forall m | 0 <= m < |ms| :: |ms[m]| == n
  }

  /** count_select after the models ms: the acceptance vectors added up. */
  function Counts(ms: seq<seq<real>>, n: nat): (c: seq<int>)
    requires Shaped(ms, n)
    ensures |c| == n
  {
    if ms == [] then IntZeros(n)
    else AddCounts(Counts(ms[..|ms| - 1], n), Woe(ms[|ms| - 1], WoeMin))
  }

  /** select[count_select >= nfeatures / 2] = 1, with Python's true division. */
  function MajorityVote(count: seq<int>, nfeatures: nat): (s: seq<int>)
    ensures |s| == |count|
  {
    seq(|count|, j requires 0 <= j < |count| =>
      if (count[j] as real) >= (nfeatures as real) / 2.0 then 1 else 0)
  }

  /** The `selected` column score_models stores. */
  function Selection(ms: seq<seq<real>>, n: nat): (s: seq<int>)
    requires Shaped(ms, n)
    ensures |s| == n
  {
    MajorityVote(Counts(ms, n), n)
  }

  /** The models (among the first k) that accept feature j. */
  function Voters(ms: seq<seq<real>>, n: nat, j: nat, k: nat): set<nat>
    requires Shaped(ms, n) && j < n && k <= |ms|
  {
    set m: nat | m < k && Accepted(ms[m], j, WoeMin)
  }

  class Fsel {
    /** X by columns, one per feature. */
    var X: seq<seq<real>>
    var y: seq<real>
    const nmodels: nat
    const nfeatures: nat
    /** The result table: the score column and the acceptance column of each
        model, in model order, and the selection column. */
    var scores: seq<seq<real>>
    var woes: seq<seq<int>>
    var selected: seq<int>

    /** Fsel(X, y) with `nmodels` scoring models; the table starts with one
        empty score column per model. */
    constructor (X0: seq<seq<real>>, y0: seq<real>, nmodels0: nat)
      ensures X == X0 && y == y0
      ensures nmodels == nmodels0 && nfeatures == |X0|
      ensures scores == seq(nmodels0, _ => []) && woes == seq(nmodels0, _ => [])
      ensures selected == []
    {
      X, y := X0, y0;
      nmodels, nfeatures := nmodels0, |X0|;
      scores := seq(nmodels0, _ => []);
      woes := seq(nmodels0, _ => []);
      selected := [];
    }

    /** eval_score: woe = zeros_like(score), then woe[score >= sum * woe_min] = 1.
        It builds a fresh vector and changes nothing else. */
    method EvalScore(score: seq<real>, woeMin: real) returns (woe: seq<int>)
      ensures woe == Woe(score, woeMin)
    {
      var sumScore := Sum(score);
      var minScore := sumScore * woeMin;
      var w := new int[|score|](_ => 0);
      forall i | 0 <= i < w.Length && score[i] >= minScore {
        w[i] := 1;
      }
      ghost var want := Woe(score, woeMin);
      forall i | 0 <= i < w.Length ensures w[i] == want[i] {
        assert Accepted(score, i, woeMin) <==> score[i] >= minScore;
      }
      woe := w[..];
    }

    /** score_models with the models' factor_importance results given as
        `modelScores`: store each score and acceptance column, count the
        acceptances per feature, then take the majority vote. */
    method ScoreModels(modelScores: seq<seq<real>>)
      requires |modelScores| == nmodels && Shaped(modelScores, nfeatures)
      requires |scores| == nmodels && |woes| == nmodels
      modifies this
      ensures X == old(X) && y == old(y)
      ensures scores == modelScores
      ensures |woes| == nmodels
      ensures forall m | 0 <= m < nmodels :: woes[m] == Woe(modelScores[m], WoeMin)
      ensures selected == Selection(modelScores, nfeatures)
    {
      var countSelect := IntZeros(nfeatures);
      for i := 0 to nmodels
        invariant |scores| == nmodels && |woes| == nmodels
        invariant forall m | 0 <= m < i :: scores[m] == modelScores[m]
        invariant forall m | 0 <= m < i :: woes[m] == Woe(modelScores[m], WoeMin)
        invariant countSelect == Counts(modelScores[..i], nfeatures)
        invariant X == old(X) && y == old(y)
      {
        var corr := modelScores[i];
        scores := scores[i := corr];
        var woe := EvalScore(corr, WoeMin);
        woes := woes[i := woe];
        assert modelScores[..i + 1][..i] == modelScores[..i];
        countSelect := AddCounts(countSelect, woe);
      }
      assert modelScores[..nmodels] == modelScores;
      var select := new int[nfeatures](_ => 0);
      forall j | 0 <= j < nfeatures && (countSelect[j] as real) >= (nfeatures as real) / 2.0 {
        select[j] := 1;
      }
      selected := select[..];
    }
  }

  /** The acceptance vector is 0/1, and 1 exactly at the scores that reach
      woe_min times the total. */
  lemma WoeAccepts(score: seq<real>, woeMin: real, i: nat)
    requires i < |score|
    ensures Woe(score, woeMin)[i] == 0 || Woe(score, woeMin)[i] == 1
    ensures Woe(score, woeMin)[i] == 1 <==> Accepted(score, i, woeMin)
  {
    assert Woe(score, woeMin)[i] == WoeEntry(score, woeMin, i);
  }

  /** A higher score is accepted whenever a lower one is. */
  lemma AcceptanceMonotone(score: seq<real>, woeMin: real, i: nat, j: nat)
    requires i < |score| && j < |score|
    requires score[i] >= score[j] && Accepted(score, j, woeMin)
    ensures Accepted(score, i, woeMin)
  {
  }

  /** With every score 0 the threshold is 0, so every feature is accepted. */
  lemma AllZeroAllAccepted(score: seq<real>, woeMin: real)
    requires forall i | 0 <= i < |score| :: score[i] == 0.0
    ensures forall i | 0 <= i < |score| :: Woe(score, woeMin)[i] == 1
  {
    SumZeroIffAllZero(score);
  }

  /** count_select[j] is the number of models that accept feature j. */
  lemma {:induction false} CountsAreVoters(ms: seq<seq<real>>, n: nat, j: nat)
    requires Shaped(ms, n) && j < n
    ensures Counts(ms, n)[j] == |Voters(ms, n, j, |ms|)|
  {
    if ms != [] {
      var k := |ms| - 1;
      var init := ms[..k];
      assert Counts(ms, n)[j] == Counts(init, n)[j] + Woe(ms[k], WoeMin)[j];
      CountsAreVoters(init, n, j);
      VotersOfPrefix(ms, n, j, k);
      VotersStep(ms, n, j, k);
    }
  }

  /** Model k joins the voters exactly when it accepts feature j. */
  lemma VotersStep(ms: seq<seq<real>>, n: nat, j: nat, k: nat)
    requires Shaped(ms, n) && j < n && k < |ms|
    ensures |Voters(ms, n, j, k + 1)| == |Voters(ms, n, j, k)| + Woe(ms[k], WoeMin)[j]
  {
    var before := Voters(ms, n, j, k);
    if Accepted(ms[k], j, WoeMin) {
      assert Voters(ms, n, j, k + 1) == before + {k};
      assert k !in before;
    } else {
      assert Voters(ms, n, j, k + 1) == before;
    }
  }

  /** The voters among the first k models do not depend on the later models. */
  lemma VotersOfPrefix(ms: seq<seq<real>>, n: nat, j: nat, k: nat)
    requires Shaped(ms, n) && j < n && k <= |ms|
    ensures Voters(ms[..k], n, j, k) == Voters(ms, n, j, k)
  {
    forall m: nat | m < k ensures ms[..k][m] == ms[m] {
    }
  }

  /** A set of models among the first k has at most k members. */
  lemma VotersBound(ms: seq<seq<real>>, n: nat, j: nat, k: nat)
    requires Shaped(ms, n) && j < n && k <= |ms|
    ensures |Voters(ms, n, j, k)| <= k
  {
    var V, S := Voters(ms, n, j, k), Span(0, k);
    assert V <= S;
    assert S == V + (S - V);
  }

  /** After the model loop every count lies in 0..nmodels. */
  lemma CountBounds(ms: seq<seq<real>>, n: nat, j: nat)
    requires Shaped(ms, n) && j < n
    ensures 0 <= Counts(ms, n)[j] <= |ms|
  {
    CountsAreVoters(ms, n, j);
    VotersBound(ms, n, j, |ms|);
  }

  /** The vote is 0 or 1, and 1 exactly when twice the count reaches nfeatures. */
  lemma MajorityIff(count: seq<int>, nfeatures: nat, j: nat)
    requires j < |count|
    ensures MajorityVote(count, nfeatures)[j] == 0 || MajorityVote(count, nfeatures)[j] == 1
    ensures MajorityVote(count, nfeatures)[j] == 1 <==> 2 * count[j] >= nfeatures
  {
  }

  /** A feature is selected exactly when at least nfeatures / 2 models accept it. */
  lemma SelectedIffEnoughVoters(ms: seq<seq<real>>, n: nat, j: nat)
    requires Shaped(ms, n) && j < n
    ensures Selection(ms, n)[j] == 1 <==> 2 * |Voters(ms, n, j, |ms|)| >= n
    ensures Selection(ms, n)[j] != 1 ==> Selection(ms, n)[j] == 0
  {
    CountsAreVoters(ms, n, j);
    MajorityIff(Counts(ms, n), n, j);
  }

  /** The vote compares with half the number of features, not of models: with
      more than twice as many features as models nothing is ever selected,
      whatever the scores. */
  lemma NoSelectionWhenFeaturesOutnumber(ms: seq<seq<real>>, n: nat)
    requires Shaped(ms, n) && n > 2 * |ms|
    ensures forall j | 0 <= j < n :: Selection(ms, n)[j] == 0
  {
    forall j | 0 <= j < n ensures Selection(ms, n)[j] == 0 {
      CountBounds(ms, n, j);
      MajorityIff(Counts(ms, n), n, j);
    }
  }

  /** One model scoring three features 0.5, 0.25, 0.25 accepts all three, yet
      the vote as written selects none of them. */
  lemma UnanimousNotSelectedAsWritten()
    ensures var ms := [[0.5, 0.25, 0.25]];
      Shaped(ms, 3) &&
      (forall j | 0 <= j < 3 :: Woe(ms[0], WoeMin)[j] == 1) &&
      Selection(ms, 3) == [0, 0, 0]
  {
    var m := [0.5, 0.25, 0.25];
    var ms := [m];
    assert Sum([0.5]) == 0.5 by { assert [0.5][..0] == []; }
    assert Sum([0.5, 0.25]) == 0.75 by { assert [0.5, 0.25][..1] == [0.5]; }
    assert Sum(m) == 1.0 by { assert m[..2] == [0.5, 0.25]; }
    forall j | 0 <= j < 3 ensures Woe(m, WoeMin)[j] == 1 {
      WoeAccepts(m, WoeMin, j);
    }
    NoSelectionWhenFeaturesOutnumber(ms, 3);
  }

  /** The majority vote over the models: the count is compared with half the
      number of models. */
  function ModelMajority(ms: seq<seq<real>>, n: nat): (s: seq<int>)
    requires Shaped(ms, n)
    ensures |s| == n
  {
    MajorityVote(Counts(ms, n), |ms|)
  }

  /** With the count compared with nmodels / 2, a feature is selected exactly
      when at least half of the models accept it. */
  lemma ModelMajorityIff(ms: seq<seq<real>>, n: nat, j: nat)
    requires Shaped(ms, n) && j < n
    ensures ModelMajority(ms, n)[j] == 1 <==> 2 * |Voters(ms, n, j, |ms|)| >= |ms|
    ensures ModelMajority(ms, n)[j] != 1 ==> ModelMajority(ms, n)[j] == 0
  {
    CountsAreVoters(ms, n, j);
    MajorityIff(Counts(ms, n), |ms|, j);
  }

  /** A feature that every model accepts is selected by the model majority. */
  lemma UnanimousSelected(ms: seq<seq<real>>, n: nat, j: nat)
    requires Shaped(ms, n) && j < n
    requires forall m | 0 <= m < |ms| :: Accepted(ms[m], j, WoeMin)
    ensures ModelMajority(ms, n)[j] == 1
  {
    var V, S := Voters(ms, n, j, |ms|), Span(0, |ms|);
    assert V == S;
    ModelMajorityIff(ms, n, j);
  }
}
