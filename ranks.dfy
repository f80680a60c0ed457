/** The rank transforms of the xi coefficient: scipy's rankdata with the
    "ordinal" and "max" methods (stated by what they count), the shuffled
    tie-break of x_ordered_rank, f = y_rank_max, g, the argsort x_ordered and
    the re-ordered f, x_rank_max_ordered. */
module Ranks {
  import opened SeqUtil

  /** The positions a stable ascending sort of `v` puts before position `i`. */
  function Before(v: seq<real>, i: nat): set<nat>
    requires i < |v|
  {
    set k: nat | k < |v| && (v[k] < v[i] || (v[k] == v[i] && k < i))
  }

  /** rankdata(v, method="ordinal"): 1 + the number of positions a stable sort places first. */
  function OrdinalRank(v: seq<real>): (r: seq<nat>)
    ensures |r| == |v|
  {
    seq(|v|, i requires 0 <= i < |v| => |Before(v, i)| + 1)
  }

  /** The positions j with v[j] <= v[i]. */
  function AtMost(v: seq<real>, i: nat): set<nat>
    requires i < |v|
  {
    set k: nat | k < |v| && v[k] <= v[i]
  }

  /** The positions j with v[j] >= v[i]. */
  function AtLeast(v: seq<real>, i: nat): set<nat>
    requires i < |v|
  {
    set k: nat | k < |v| && v[k] >= v[i]
  }

  /** rankdata(v, method="max"): ties all get the largest rank of their group. */
  function MaxRank(v: seq<real>): (r: seq<nat>)
    ensures |r| == |v|
  {
    seq(|v|, i requires 0 <= i < |v| => |AtMost(v, i)|)
  }

  function Negate(v: seq<real>): (r: seq<real>)
    ensures |r| == |v|
  {
    seq(|v|, i requires 0 <= i < |v| => -v[i])
  }

  lemma SubsetSize(A: set<nat>, B: set<nat>)
    requires A <= B
    ensures |A| <= |B|
  {
    assert B == A + (B - A);
  }

  /** A set of indices below n of size n holds every index below n. */
  lemma FullSet(A: set<nat>, n: nat)
    requires forall k | k in A :: k < n
    requires |A| == n
    ensures forall k: nat | k < n :: k in A
  {
    forall k: nat | k < n ensures k in A {
      if k !in A {
        assert Span(0, n) == (Span(0, n) - {k}) + {k};
        SubsetSize(A, Span(0, n) - {k});
        assert false;
      }
    }
  }

  /** Ordinal ranks follow the stable order: by value, then by position. */
  lemma OrdinalRankStrict(v: seq<real>, i: nat, j: nat)
    requires i < |v| && j < |v|
    requires v[i] < v[j] || (v[i] == v[j] && i < j)
    ensures OrdinalRank(v)[i] < OrdinalRank(v)[j]
  {
    assert Before(v, i) + {i} <= Before(v, j);
    assert i !in Before(v, i);
    SubsetSize(Before(v, i) + {i}, Before(v, j));
  }

  /** rankdata(..., "ordinal") is a ranking: every rank 1..n once. */
  lemma OrdinalRankIsRanking(v: seq<real>)
    ensures IsRanking(OrdinalRank(v))
  {
    var r := OrdinalRank(v);
    forall i | 0 <= i < |v| ensures 1 <= r[i] <= |v| {
      SubsetSize(Before(v, i), Span(0, |v|) - {i});
      assert Span(0, |v|) == (Span(0, |v|) - {i}) + {i};
    }
    forall i, j | 0 <= i < j < |v| ensures r[i] != r[j] {
      if v[i] <= v[j] { OrdinalRankStrict(v, i, j); } else { OrdinalRankStrict(v, j, i); }
    }
  }

  /** x_ordered_rank: the values are read in the shuffled order `perm`, ranked
      ordinally, and each rank is written back to the position it came from.
      Sorting the pairs (perm[j], j) by their first component lists, for each
      position p, the j with perm[j] == p: the inverse permutation. For every
      shuffle the result is a ranking of 1..n. */
  function XOrderedRank(x: seq<real>, perm: seq<nat>): (r: seq<nat>)
    requires IsPermutation(perm, |x|)
    ensures |r| == |x|
  {
    InverseInverts(perm);
    Reorder(OrdinalRank(Reorder(x, perm)), Inverse(perm))
  }

  /** For every shuffle x_ordered_rank is a ranking of 1..n. */
  lemma XOrderedRankIsRanking(x: seq<real>, perm: seq<nat>)
    requires IsPermutation(perm, |x|)
    ensures IsRanking(XOrderedRank(x, perm))
  {
    InverseInverts(perm);
    OrdinalRankIsRanking(Reorder(x, perm));
    ReorderRanking(OrdinalRank(Reorder(x, perm)), Inverse(perm));
  }

  /** Re-arranging a ranking by a permutation gives a ranking. */
  lemma ReorderRanking(r: seq<nat>, p: seq<nat>)
    requires IsRanking(r)
    requires IsPermutation(p, |r|)
    ensures IsRanking(Reorder(r, p))
  {
    var q := Reorder(r, p);
    forall i, j | 0 <= i < j < |q| ensures q[i] != q[j] {
      assert p[i] != p[j];
    }
  }

  /** Un-shuffling puts the rank of shuffled position j at position perm[j]. */
  lemma XOrderedRankUnshuffles(x: seq<real>, perm: seq<nat>, j: nat)
    requires IsPermutation(perm, |x|)
    requires j < |x|
    ensures XOrderedRank(x, perm)[perm[j]] == OrdinalRank(Reorder(x, perm))[j]
  {
  }

  /** Ranks follow the values of x, and ties go by position in the shuffled order. */
  lemma XOrderedRankOrder(x: seq<real>, perm: seq<nat>, i: nat, j: nat)
    requires IsPermutation(perm, |x|)
    requires i < |x| && j < |x|
    ensures var r := XOrderedRank(x, perm); var inv := Inverse(perm);
      r[i] < r[j] <==> x[i] < x[j] || (x[i] == x[j] && inv[i] < inv[j])
  {
    var r := XOrderedRank(x, perm);
    var inv := Inverse(perm);
    var w := Reorder(x, perm);
    assert w[inv[i]] == x[i] && w[inv[j]] == x[j];
    if x[i] < x[j] || (x[i] == x[j] && inv[i] < inv[j]) {
      OrdinalRankStrict(w, inv[i], inv[j]);
    } else if i != j {
      assert inv[i] != inv[j];
      OrdinalRankStrict(w, inv[j], inv[i]);
    }
  }

  /** f = y_rank_max: max-rank of y divided by n. */
  function YRankMax(y: seq<real>): (f: seq<real>)
    ensures |f| == |y|
  {
    seq(|y|, i requires 0 <= i < |y| => (MaxRank(y)[i] as real) / (|y| as real))
  }

  /** g: max-rank of -y divided by n. */
  function G(y: seq<real>): (g: seq<real>)
    ensures |g| == |y|
  {
    var neg := Negate(y);
    seq(|y|, i requires 0 <= i < |y| => (MaxRank(neg)[i] as real) / (|y| as real))
  }

  /** A count c in 1..n divided by n lies in (0, 1]. */
  lemma ScaledCount(c: nat, n: nat)
    requires 1 <= c <= n
    ensures 0.0 < (c as real) / (n as real) <= 1.0
    ensures (c as real) / (n as real) * (n as real) == c as real
    ensures (c as real) / (n as real) == 1.0 <==> c == n
  {
  }

  lemma ScaledMonotone(a: nat, b: nat, n: nat)
    requires a < b && n > 0
    ensures (a as real) / (n as real) < (b as real) / (n as real)
  {
  }

  /** n * f[i] is #{j : y[j] <= y[i]}, which lies in 1..n. */
  lemma YRankMaxCounts(y: seq<real>, i: nat)
    requires i < |y|
    ensures YRankMax(y)[i] * (|y| as real) == |AtMost(y, i)| as real
    ensures 1 <= |AtMost(y, i)| <= |y|
    ensures 0.0 < YRankMax(y)[i] <= 1.0
    ensures YRankMax(y)[i] == 1.0 <==> |AtMost(y, i)| == |y|
  {
    assert MaxRank(y)[i] == |AtMost(y, i)|;
    assert YRankMax(y)[i] == (MaxRank(y)[i] as real) / (|y| as real);
    assert i in AtMost(y, i);
    SubsetSize({i}, AtMost(y, i));
    SubsetSize(AtMost(y, i), Span(0, |y|));
    ScaledCount(|AtMost(y, i)|, |y|);
  }

  /** f is monotone in y: equal values share f, smaller values get smaller f. */
  lemma YRankMaxOrder(y: seq<real>, i: nat, j: nat)
    requires i < |y| && j < |y|
    ensures y[i] == y[j] ==> YRankMax(y)[i] == YRankMax(y)[j]
    ensures y[i] < y[j] ==> YRankMax(y)[i] < YRankMax(y)[j]
  {
    assert MaxRank(y)[i] == |AtMost(y, i)|;
    assert YRankMax(y)[i] == (MaxRank(y)[i] as real) / (|y| as real);
    assert MaxRank(y)[j] == |AtMost(y, j)|;
    assert YRankMax(y)[j] == (MaxRank(y)[j] as real) / (|y| as real);
    if y[i] == y[j] {
      assert AtMost(y, i) == AtMost(y, j);
    } else if y[i] < y[j] {
      assert AtMost(y, i) + {j} <= AtMost(y, j);
      assert j !in AtMost(y, i);
      SubsetSize(AtMost(y, i) + {j}, AtMost(y, j));
      ScaledMonotone(|AtMost(y, i)|, |AtMost(y, j)|, |y|);
    }
  }

  /** f[i] == 1 exactly at the largest values of y. */
  lemma YRankMaxOfLargest(y: seq<real>, i: nat)
    requires i < |y|
    ensures YRankMax(y)[i] == 1.0 <==> forall j | 0 <= j < |y| :: y[j] <= y[i]
  {
    YRankMaxCounts(y, i);
    var A := AtMost(y, i);
    if forall j | 0 <= j < |y| :: y[j] <= y[i] {
      assert A == Span(0, |y|);
    }
    if |A| == |y| {
      FullSet(A, |y|);
      forall j | 0 <= j < |y| ensures y[j] <= y[i] {
        assert j in A;
      }
    }
  }

  /** n * g[i] is #{j : y[j] >= y[i]}, the max-rank of -y, which lies in 1..n. */
  lemma GCountsAtLeast(y: seq<real>, i: nat)
    requires i < |y|
    ensures G(y)[i] * (|y| as real) == |AtLeast(y, i)| as real
    ensures 1 <= |AtLeast(y, i)| <= |y|
    ensures 0.0 < G(y)[i] <= 1.0
    ensures G(y)[i] == 1.0 <==> |AtLeast(y, i)| == |y|
  {
    assert AtMost(Negate(y), i) == AtLeast(y, i);
    assert MaxRank(Negate(y))[i] == |AtLeast(y, i)|;
    assert G(y)[i] == (MaxRank(Negate(y))[i] as real) / (|y| as real);
    assert i in AtLeast(y, i);
    SubsetSize({i}, AtLeast(y, i));
    SubsetSize(AtLeast(y, i), Span(0, |y|));
    ScaledCount(|AtLeast(y, i)|, |y|);
  }

  /** g[i] == 1 exactly at the smallest values of y. */
  lemma GOfSmallest(y: seq<real>, i: nat)
    requires i < |y|
    ensures G(y)[i] == 1.0 <==> forall j | 0 <= j < |y| :: y[i] <= y[j]
  {
    GCountsAtLeast(y, i);
    var A := AtLeast(y, i);
    if forall j | 0 <= j < |y| :: y[i] <= y[j] {
      assert A == Span(0, |y|);
    }
    if |A| == |y| {
      FullSet(A, |y|);
      forall j | 0 <= j < |y| ensures y[i] <= y[j] {
        assert j in A;
      }
    }
  }

  /** np.argsort of a ranking of 1..n: position k holds the index whose rank is k+1.
      As the ranks are distinct this is the only ascending order, whichever sort
      numpy uses. */
  function ArgSort(r: seq<nat>): (ord: seq<nat>)
    requires IsRanking(r)
    ensures |ord| == |r|
  {
    DistinctCovers(r, 1);
    seq(|r|, k requires 0 <= k < |r| => IndexOf(r, k + 1))
  }

  /** argsort lists every index once, the one of rank k+1 at position k. */
  lemma ArgSortPermutes(r: seq<nat>)
    requires IsRanking(r)
    ensures IsPermutation(ArgSort(r), |r|)
    ensures forall k | 0 <= k < |r| :: r[ArgSort(r)[k]] == k + 1
  {
    var ord := ArgSort(r);
    DistinctCovers(r, 1);
    forall k | 0 <= k < |r| ensures r[ord[k]] == k + 1 && ord[k] < |r| {
      assert ord[k] == IndexOf(r, k + 1);
    }
    forall a, b | 0 <= a < b < |r| ensures ord[a] != ord[b] {
      assert r[ord[a]] != r[ord[b]];
    }
  }

  /** argsort inverts the ranking: the index of rank r[i] is i. */
  lemma ArgSortInverts(r: seq<nat>)
    requires IsRanking(r)
    ensures forall i | 0 <= i < |r| :: ArgSort(r)[r[i] - 1] == i
  {
    var ord := ArgSort(r);
    ArgSortPermutes(r);
    forall i | 0 <= i < |r| ensures ord[r[i] - 1] == i {
      var k := r[i] - 1;
      assert r[ord[k]] == k + 1 == r[i];
    }
  }

  /** x_ordered: the order of the x's, ties broken by the shuffle. */
  function XOrdered(x: seq<real>, perm: seq<nat>): (ord: seq<nat>)
    requires IsPermutation(perm, |x|)
    ensures |ord| == |x|
  {
    XOrderedRankIsRanking(x, perm);
    ArgSort(XOrderedRank(x, perm))
  }

  /** x_ordered lists every position of x once. */
  lemma XOrderedPermutes(x: seq<real>, perm: seq<nat>)
    requires IsPermutation(perm, |x|)
    ensures IsPermutation(XOrdered(x, perm), |x|)
  {
    XOrderedRankIsRanking(x, perm);
    ArgSortPermutes(XOrderedRank(x, perm));
  }

  /** x_ordered lists the positions of x in nondecreasing order of value, and it
      inverts x_ordered_rank. */
  lemma XOrderedSortsX(x: seq<real>, perm: seq<nat>)
    requires IsPermutation(perm, |x|)
    ensures var ord := XOrdered(x, perm);
      IsPermutation(ord, |x|) && forall k, l | 0 <= k < l < |x| :: x[ord[k]] <= x[ord[l]]
    ensures var ord := XOrdered(x, perm); var r := XOrderedRank(x, perm);
      IsRanking(r) && forall i | 0 <= i < |x| :: ord[r[i] - 1] == i
    ensures var ord := XOrdered(x, perm); var r := XOrderedRank(x, perm);
      forall k | 0 <= k < |x| :: r[ord[k]] == k + 1
  {
    var ord := XOrdered(x, perm);
    var r := XOrderedRank(x, perm);
    XOrderedRankIsRanking(x, perm);
    XOrderedPermutes(x, perm);
    ArgSortPermutes(r);
    ArgSortInverts(r);
    forall k, l | 0 <= k < l < |x| ensures x[ord[k]] <= x[ord[l]] {
      XOrderedRankOrder(x, perm, ord[l], ord[k]);
    }
  }

  /** Without ties in x the shuffle makes no difference to x_ordered. */
  lemma XOrderedWithoutTies(x: seq<real>, p1: seq<nat>, p2: seq<nat>)
    requires IsPermutation(p1, |x|) && IsPermutation(p2, |x|)
    requires Distinct(x)
    ensures XOrdered(x, p1) == XOrdered(x, p2)
  {
    var o1 := XOrdered(x, p1);
    var o2 := XOrdered(x, p2);
    XOrderedPermutes(x, p1);
    XOrderedPermutes(x, p2);
    XOrderedSortsX(x, p1);
    XOrderedSortsX(x, p2);
    var s1 := Reorder(x, o1);
    var s2 := Reorder(x, o2);
    ReorderPermutes(x, o1);
    ReorderPermutes(x, o2);
    assert Sorted(s1) && Sorted(s2);
    SortedUnique(s1, s2);
    forall k | 0 <= k < |x| ensures o1[k] == o2[k] {
      assert x[o1[k]] == s1[k] == s2[k] == x[o2[k]];
    }
  }

  /** x_rank_max_ordered: f rearranged along x_ordered. */
  function XRankMaxOrdered(x: seq<real>, y: seq<real>, perm: seq<nat>): (fo: seq<real>)
    requires |x| == |y|
    requires IsPermutation(perm, |x|)
    ensures |fo| == |x|
  {
    XOrderedPermutes(x, perm);
    Reorder(YRankMax(y), XOrdered(x, perm))
  }

  /** Re-ordering keeps the values of f: the same multiset. */
  lemma XRankMaxOrderedPermutesF(x: seq<real>, y: seq<real>, perm: seq<nat>)
    requires |x| == |y|
    requires IsPermutation(perm, |x|)
    ensures multiset(XRankMaxOrdered(x, y, perm)) == multiset(YRankMax(y))
  {
    ReorderPermutes(YRankMax(y), XOrdered(x, perm));
  }
}
