/** Sequences of reals and of indices: sums and means (numpy's sum and mean
    on exact reals), permutations given as index sequences, fancy indexing
    s[p], and sorting. */
module SeqUtil {

  /** numpy's `sum`, on exact reals. */
  function Sum(s: seq<real>): real
  {
    if |s| == 0 then 0.0 else Sum(s[..|s| - 1]) + s[|s| - 1]
  }

  /** numpy's `mean`; it is NaN on an empty array, so here it needs one element. */
  function Mean(s: seq<real>): real
    requires |s| > 0
  {
    Sum(s) / (|s| as real)
  }

  function Abs(r: real): real
  {
    if r < 0.0 then -r else r
  }

  function Min(a: real, b: real): real
  {
    if a <= b then a else b
  }

  /** The sequence of `n` zeros (numpy's `zeros`). */
  function Zeros(n: nat): seq<real>
  {
    seq(n, _ => 0.0)
  }

  predicate Distinct<T(==)>(s: seq<T>)
  {
    forall i, j | 0 <= i < j < |s| :: s[i] != s[j]
  }

  /** `p` lists every index 0..n-1 exactly once. */
  predicate IsPermutation(p: seq<nat>, n: nat)
  {
    |p| == n && (forall k | 0 <= k < n :: p[k] < n) && Distinct(p)
  }

  /** `r` lists every rank 1..|r| exactly once. */
  predicate IsRanking(r: seq<nat>)
  {
    (forall k | 0 <= k < |r| :: 1 <= r[k] <= |r|) && Distinct(r)
  }

  predicate Sorted(s: seq<real>)
  {
    forall i, j | 0 <= i < j < |s| :: s[i] <= s[j]
  }

  /** The set lo..hi-1. */
  function Span(lo: nat, hi: nat): (r: set<nat>)
    ensures forall k: nat :: k in r <==> lo <= k < hi
    ensures lo <= hi ==> |r| == hi - lo
    decreases hi - lo
  {
    if hi <= lo then {} else Span(lo, hi - 1) + {hi - 1}
  }

  /** Pigeonhole: a sequence without repetitions drawn from `S` is no longer than `S` is large. */
  lemma {:induction false} DistinctBound<T>(s: seq<T>, S: set<T>)
    requires Distinct(s)
    requires forall k | 0 <= k < |s| :: s[k] in S
    ensures |s| <= |S|
  {
    if |s| > 0 {
      var last := s[|s| - 1];
      var init := s[..|s| - 1];
      assert forall k | 0 <= k < |init| :: init[k] in S - {last} by {
        forall k | 0 <= k < |init| ensures init[k] in S - {last} {
          assert init[k] == s[k] && s[k] != s[|s| - 1];
        }
      }
      DistinctBound(init, S - {last});
      assert S == (S - {last}) + {last};
    }
  }

  /** A sequence of |s| distinct values from lo..lo+|s|-1 takes every one of them. */
  lemma DistinctCovers(s: seq<nat>, lo: nat)
    requires Distinct(s)
    requires forall k | 0 <= k < |s| :: lo <= s[k] < lo + |s|
    ensures forall v: nat | lo <= v < lo + |s| :: v in s
  {
    forall v: nat | lo <= v < lo + |s| ensures v in s {
      if v !in s {
        var S := Span(lo, lo + |s|);
        assert S == (S - {v}) + {v};
        DistinctBound(s, S - {v});
        assert false;
      }
    }
  }

  /** The first position of `v` in `s`. */
  function IndexOf<T(==)>(s: seq<T>, v: T): (i: nat)
    requires v in s
    ensures i < |s| && s[i] == v
  {
    if s[0] == v then 0 else 1 + IndexOf(s[1..], v)
  }

  /** No earlier position holds `v`. */
  lemma {:induction false} IndexOfFirst<T>(s: seq<T>, v: T)
    requires v in s
    ensures forall k | 0 <= k < IndexOf(s, v) :: s[k] != v
  {
    if s[0] != v {
      IndexOfFirst(s[1..], v);
      forall k | 0 <= k < IndexOf(s, v) ensures s[k] != v {
        if k > 0 {
          assert s[k] == s[1..][k - 1];
        }
      }
    }
  }

  /** The inverse permutation: Inverse(p)[v] is the position at which `p` holds `v`. */
  function Inverse(p: seq<nat>): (q: seq<nat>)
    requires IsPermutation(p, |p|)
    ensures |q| == |p|
  {
    DistinctCovers(p, 0);
    seq(|p|, v requires 0 <= v < |p| => IndexOf(p, v))
  }

  /** The inverse is a permutation, and composing it with `p` either way is the identity. */
  lemma InverseInverts(p: seq<nat>)
    requires IsPermutation(p, |p|)
    ensures IsPermutation(Inverse(p), |p|)
    ensures forall v | 0 <= v < |p| :: p[Inverse(p)[v]] == v
    ensures forall j | 0 <= j < |p| :: Inverse(p)[p[j]] == j
  {
    var q := Inverse(p);
    DistinctCovers(p, 0);
    forall v | 0 <= v < |p| ensures p[q[v]] == v {
      assert q[v] == IndexOf(p, v);
    }
    forall a, b | 0 <= a < b < |p| ensures q[a] != q[b] {
      assert p[q[a]] == a && p[q[b]] == b;
    }
    forall j | 0 <= j < |p| ensures q[p[j]] == j {
      assert p[q[p[j]]] == p[j];
    }
  }

  /** numpy fancy indexing `s[p]`: the elements of `s` at the positions listed in `p`. */
  function Reorder<T>(s: seq<T>, p: seq<nat>): seq<T>
    requires forall k | 0 <= k < |p| :: p[k] < |s|
  {
    seq(|p|, k requires 0 <= k < |p| => s[p[k]])
  }

  /** Picking distinct positions takes a sub-multiset. */
  lemma {:induction false} ReorderMultiset<T>(s: seq<T>, p: seq<nat>)
    requires forall k | 0 <= k < |p| :: p[k] < |s|
    requires Distinct(p)
    ensures multiset(Reorder(s, p)) <= multiset(s)
    decreases |s|
  {
    var n := |s|;
    if |p| == 0 {
      assert Reorder(s, p) == [];
    } else {
      assert p[0] < n;
      var init := s[..n - 1];
      assert s == init + [s[n - 1]];
      assert multiset(s) == multiset(init) + multiset{s[n - 1]};
      if n - 1 in p {
        var j := IndexOf(p, n - 1);
        var p' := p[..j] + p[j + 1..];
        RemoveLargest(p, j, n);
        ReorderMultiset(init, p');
        ReorderRemoved(s, p, j, p');
      } else {
        forall k | 0 <= k < |p| ensures p[k] < n - 1 {
          assert p[k] in p;
        }
        assert Reorder(s, p) == Reorder(init, p);
        ReorderMultiset(init, p);
      }
    }
  }

  /** Picking every position once is a permutation: a sub-multiset of the same size. */
  lemma ReorderPermutes<T>(s: seq<T>, p: seq<nat>)
    requires forall k | 0 <= k < |p| :: p[k] < |s|
    requires Distinct(p) && |p| == |s|
    ensures multiset(Reorder(s, p)) == multiset(s)
  {
    ReorderMultiset(s, p);
    var A, B := multiset(Reorder(s, p)), multiset(s);
    assert B == A + (B - A);
    assert |B - A| == 0;
  }

  /** Deleting the position that holds the largest index n-1 leaves distinct indices below n-1. */
  lemma RemoveLargest(p: seq<nat>, j: nat, n: nat)
    requires j < |p| && p[j] == n - 1 && n > 0
    requires forall k | 0 <= k < |p| :: p[k] < n
    requires Distinct(p)
    ensures var p' := p[..j] + p[j + 1..];
      Distinct(p') && |p'| == |p| - 1 && forall k | 0 <= k < |p'| :: p'[k] < n - 1
  {
    var p' := p[..j] + p[j + 1..];
    forall k | 0 <= k < |p'| ensures p'[k] < n - 1 {
      if k < j { assert p'[k] == p[k]; } else { assert p'[k] == p[k + 1]; }
    }
    forall a, b | 0 <= a < b < |p'| ensures p'[a] != p'[b] {
      var a' := if a < j then a else a + 1;
      var b' := if b < j then b else b + 1;
      assert p'[a] == p[a'] && p'[b] == p[b'] && a' < b';
    }
  }

  lemma ReorderRemoved<T>(s: seq<T>, p: seq<nat>, j: nat, p': seq<nat>)
    requires |s| > 0 && j < |p| && p[j] == |s| - 1
    requires forall k | 0 <= k < |p| :: p[k] < |s|
    requires p' == p[..j] + p[j + 1..]
    requires forall k | 0 <= k < |p'| :: p'[k] < |s| - 1
    ensures multiset(Reorder(s, p)) == multiset(Reorder(s[..|s| - 1], p')) + multiset{s[|s| - 1]}
  {
    var r := Reorder(s, p);
    var r' := Reorder(s[..|s| - 1], p');
    assert r == r'[..j] + [s[|s| - 1]] + r'[j..];
    assert r'[..j] + r'[j..] == r';
  }

  /** Insertion into a sorted sequence. */
  function Insert(x: real, s: seq<real>): (r: seq<real>)
    ensures |r| == |s| + 1
  {
    if s == [] then [x]
    else if x <= s[0] then [x] + s
    else [s[0]] + Insert(x, s[1..])
  }

  /** Insertion adds exactly x to the multiset of entries. */
  lemma {:induction false} InsertPermutes(x: real, s: seq<real>)
    ensures multiset(Insert(x, s)) == multiset(s) + multiset{x}
  {
    if s != [] && x > s[0] {
      InsertPermutes(x, s[1..]);
      assert s == [s[0]] + s[1..];
    }
  }

  /** A common lower bound of `x` and `s` bounds everything in Insert(x, s). */
  lemma {:induction false} InsertLowerBound(x: real, s: seq<real>, b: real)
    requires b <= x && forall k | 0 <= k < |s| :: b <= s[k]
    ensures forall k | 0 <= k < |s| + 1 :: b <= Insert(x, s)[k]
  {
    if s != [] && x > s[0] {
      InsertLowerBound(x, s[1..], b);
      var t := Insert(x, s[1..]);
      assert Insert(x, s) == [s[0]] + t;
    }
  }

  lemma {:induction false} InsertSorted(x: real, s: seq<real>)
    requires Sorted(s)
    ensures Sorted(Insert(x, s))
  {
    if s != [] && x > s[0] {
      InsertSorted(x, s[1..]);
      InsertLowerBound(x, s[1..], s[0]);
      var t, r := Insert(x, s[1..]), Insert(x, s);
      assert r == [s[0]] + t;
      forall i, j | 0 <= i < j < |r| ensures r[i] <= r[j] {
        assert r[j] == t[j - 1];
        if i > 0 {
          assert r[i] == t[i - 1];
        }
      }
    }
  }

  /** A one-element sequence sums to its element. */
  lemma SumSingleton(x: real)
    ensures Sum([x]) == x
  {
    assert [x][..0] == [];
  }

  /** Insertion adds x to the sum. */
  lemma {:induction false} InsertSum(x: real, s: seq<real>)
    ensures Sum(Insert(x, s)) == x + Sum(s)
  {
    SumSingleton(x);
    if s == [] {
    } else if x <= s[0] {
      SumAppend([x], s);
    } else {
      SumSingleton(s[0]);
      InsertSum(x, s[1..]);
      SumAppend([s[0]], Insert(x, s[1..]));
      SumAppend([s[0]], s[1..]);
      assert s == [s[0]] + s[1..];
    }
  }

  /** Python's `sorted` on reals (ascending), by insertion. */
  function SortAsc(s: seq<real>): (r: seq<real>)
    ensures |r| == |s|
  {
    if s == [] then [] else Insert(s[0], SortAsc(s[1..]))
  }

  /** SortAsc returns a sorted rearrangement of its input. */
  lemma {:induction false} SortAscSorts(s: seq<real>)
    ensures Sorted(SortAsc(s))
    ensures multiset(SortAsc(s)) == multiset(s)
  {
    if s != [] {
      var t := SortAsc(s[1..]);
      SortAscSorts(s[1..]);
      InsertSorted(s[0], t);
      InsertPermutes(s[0], t);
      assert s == [s[0]] + s[1..];
    }
  }

  /** Sorting keeps the sum. */
  lemma {:induction false} SortAscSum(s: seq<real>)
    ensures Sum(SortAsc(s)) == Sum(s)
  {
    if s != [] {
      SortAscSum(s[1..]);
      InsertSum(s[0], SortAsc(s[1..]));
      SumSingleton(s[0]);
      SumAppend([s[0]], s[1..]);
      assert s == [s[0]] + s[1..];
    }
  }

  lemma SortedHeadIsLeast(s: seq<real>, v: real)
    requires Sorted(s) && v in s
    ensures s[0] <= v
  {
  }

  /** A sorted arrangement of a multiset is unique. */
  lemma {:induction false} SortedUnique(a: seq<real>, b: seq<real>)
    requires Sorted(a) && Sorted(b)
    requires multiset(a) == multiset(b)
    ensures a == b
  {
    assert |a| == |multiset(a)| == |multiset(b)| == |b|;
    if a != [] {
      assert a[0] in multiset(b) && b[0] in multiset(a);
      SortedHeadIsLeast(b, a[0]);
      SortedHeadIsLeast(a, b[0]);
      var h := a[0];
      assert b[0] == h;
      assert multiset(a) == multiset([h]) + multiset(a[1..]) by { assert a == [h] + a[1..]; }
      assert multiset(b) == multiset([h]) + multiset(b[1..]) by { assert b == [h] + b[1..]; }
      assert multiset(a[1..]) == multiset(a) - multiset([h]);
      assert multiset(b[1..]) == multiset(b) - multiset([h]);
      SortedUnique(a[1..], b[1..]);
      assert a == [h] + a[1..] && b == [h] + b[1..];
    }
  }

  /** Sorting depends only on the multiset of the input. */
  lemma SortAscOfPermuted(a: seq<real>, b: seq<real>)
    requires multiset(a) == multiset(b)
    ensures SortAsc(a) == SortAsc(b)
  {
    SortAscSorts(a);
    SortAscSorts(b);
    SortedUnique(SortAsc(a), SortAsc(b));
  }

  lemma {:induction false} SumAppend(a: seq<real>, b: seq<real>)
    ensures Sum(a + b) == Sum(a) + Sum(b)
    decreases |b|
  {
    if |b| == 0 {
      assert a + b == a;
    } else {
      assert (a + b)[..|a + b| - 1] == a + b[..|b| - 1];
      SumAppend(a, b[..|b| - 1]);
    }
  }

  lemma {:induction false} SumNonNegative(s: seq<real>)
    requires forall k | 0 <= k < |s| :: s[k] >= 0.0
    ensures Sum(s) >= 0.0
  {
    if |s| > 0 {
      SumNonNegative(s[..|s| - 1]);
    }
  }

  /** Sum(s) is 0 exactly when every term of a non-negative sequence is 0. */
  lemma {:induction false} SumZeroIffAllZero(s: seq<real>)
    requires forall k | 0 <= k < |s| :: s[k] >= 0.0
    ensures Sum(s) == 0.0 <==> forall k | 0 <= k < |s| :: s[k] == 0.0
  {
    if |s| > 0 {
      var init := s[..|s| - 1];
      SumZeroIffAllZero(init);
      SumNonNegative(init);
      if Sum(s) == 0.0 {
        forall k | 0 <= k < |s| ensures s[k] == 0.0 {
          if k < |s| - 1 { assert s[k] == init[k]; }
        }
      }
    }
  }

  /** Dividing every term by t divides the sum by t. */
  lemma {:induction false} SumScaled(s: seq<real>, t: real)
    requires t != 0.0
    ensures Sum(seq(|s|, i requires 0 <= i < |s| => s[i] / t)) == Sum(s) / t
  {
    var d := seq(|s|, i requires 0 <= i < |s| => s[i] / t);
    if |s| > 0 {
      var init := s[..|s| - 1];
      assert d[..|d| - 1] == seq(|init|, i requires 0 <= i < |init| => init[i] / t);
      SumScaled(init, t);
    }
  }

  /** Termwise comparison carries over to the sums. */
  lemma {:induction false} SumMonotone(a: seq<real>, b: seq<real>)
    requires |a| == |b|
    requires forall k | 0 <= k < |a| :: a[k] <= b[k]
    ensures Sum(a) <= Sum(b)
  {
    if |a| > 0 {
      SumMonotone(a[..|a| - 1], b[..|b| - 1]);
    }
  }

  /** A non-empty sum of positive terms is positive. */
  lemma {:induction false} SumPositive(s: seq<real>)
    requires |s| > 0
    requires forall k | 0 <= k < |s| :: s[k] > 0.0
    ensures Sum(s) > 0.0
  {
    if |s| > 1 {
      SumPositive(s[..|s| - 1]);
    } else {
      assert s[..0] == [];
    }
  }

  /** m copies of c sum to m * c. */
  lemma {:induction false} SumConstant(m: nat, c: real)
    ensures Sum(seq(m, _ => c)) == (m as real) * c
  {
    if m > 0 {
      assert seq(m, _ => c)[..m - 1] == seq(m - 1, _ => c);
      SumConstant(m - 1, c);
    }
  }

  /** numpy's square, termwise. */
  function Squares(m: seq<real>): (t: seq<real>)
    ensures |t| == |m| && forall k | 0 <= k < |m| :: t[k] == m[k] * m[k]
  {
    seq(|m|, k => if 0 <= k < |m| then m[k] * m[k] else 0.0)
  }

  /** r is a plus b, term by term. */
  predicate SumOfTerms(r: seq<real>, a: seq<real>, b: seq<real>)
  {
    |r| == |a| == |b| && forall k | 0 <= k < |r| :: r[k] == a[k] + b[k]
  }

  /** Termwise addition carries over to the sums. */
  lemma {:induction false} SumOfSum(r: seq<real>, a: seq<real>, b: seq<real>)
    requires SumOfTerms(r, a, b)
    ensures Sum(r) == Sum(a) + Sum(b)
  {
    if |r| > 0 {
      var n := |r|;
      SumOfSum(r[..n - 1], a[..n - 1], b[..n - 1]);
    }
  }

  /** r is a with every term multiplied by c. */
  predicate ScaledBy(r: seq<real>, a: seq<real>, c: real)
  {
    |r| == |a| && forall k | 0 <= k < |r| :: r[k] == c * a[k]
  }

  /** Every term of x doubled. */
  function Doubled(x: seq<real>): (u: seq<real>)
    ensures ScaledBy(u, x, 2.0)
  {
    seq(|x|, k => if 0 <= k < |x| then 2.0 * x[k] else 0.0)
  }

  /** Multiplying every term by c multiplies the sum by c. */
  lemma {:induction false} SumOfScaled(r: seq<real>, a: seq<real>, c: real)
    requires ScaledBy(r, a, c)
    ensures Sum(r) == c * Sum(a)
  {
    if |r| > 0 {
      var n := |r|;
      SumOfScaled(r[..n - 1], a[..n - 1], c);
    }
  }

  /** Every row of M has q entries. */
  predicate IsMatrix(M: seq<seq<real>>, q: nat)
  {
    forall i | 0 <= i < |M| :: |M[i]| == q
  }

  /** The sum of each row. */
  function RowTotals(M: seq<seq<real>>): (r: seq<real>)
    ensures |r| == |M| && forall i | 0 <= i < |M| :: r[i] == Sum(M[i])
  {
    seq(|M|, i => if 0 <= i < |M| then Sum(M[i]) else 0.0)
  }
}
