/** The Mass-ratio Outlier Factor pipeline over a given distance matrix:
    neighbourhood counts per reference point, the mass-ratio matrix, and the
    per-point variance of mass ratios that is the outlier score.

    Matrices are row-major sequences of rows. The distance matrix itself is
    an input (its Euclidean computation is not part of this model). */
module MassRatioOutlier {
  import opened Statistics

  /** Every row has as many entries as there are rows. */
  predicate IsSquare<T>(m: seq<seq<T>>)
  {
    forall i :: 0 <= i < |m| ==> |m[i]| == |m|
  }

  /** The shape of a pairwise distance matrix: square, non-negative,
      symmetric, with a zero diagonal. */
  predicate IsDistanceMatrix(d: seq<seq<real>>)
  {
    IsSquare(d) &&
    (forall i, j :: 0 <= i < |d| && 0 <= j < |d| ==> d[i][j] >= 0.0) &&
    (forall i, j :: 0 <= i < |d| && 0 <= j < |d| ==> d[i][j] == d[j][i]) &&
    (forall i :: 0 <= i < |d| ==> d[i][i] == 0.0)
  }

  // ---------------------------------------------------------------------
  // Neighbourhood counting (one row of distances)
  // ---------------------------------------------------------------------

  /** The number of entries of `arr` that are at most `x`. */
  function CountAtMost(arr: seq<real>, x: real): (k: nat)
    ensures k <= |arr|
  {
    if arr == [] then 0
    else CountAtMost(arr[..|arr| - 1], x) + (if arr[|arr| - 1] <= x then 1 else 0)
  }

  /** The indices of the entries of `arr` that are at most `x`. */
  ghost function IndicesAtMost(arr: seq<real>, x: real): (s: set<nat>)
  {
    set r: nat | r < |arr| && arr[r] <= x
  }

  /** The counter agrees with the cardinality of the set it counts. */
  lemma {:induction false} CountAtMostIsCardinality(arr: seq<real>, x: real)
    ensures CountAtMost(arr, x) == |IndicesAtMost(arr, x)|
  {
    if arr != [] {
      var n := |arr| - 1;
      var front := arr[..n];
      CountAtMostIsCardinality(front, x);
      if arr[n] <= x {
        assert IndicesAtMost(arr, x) == IndicesAtMost(front, x) + {n};
      } else {
        assert IndicesAtMost(arr, x) == IndicesAtMost(front, x);
      }
    }
  }

  /** Raising the threshold never lowers the count. */
  lemma {:induction false} CountAtMostMonotone(arr: seq<real>, x: real, y: real)
    requires x <= y
    ensures CountAtMost(arr, x) <= CountAtMost(arr, y)
  {
    if arr != [] {
      CountAtMostMonotone(arr[..|arr| - 1], x, y);
    }
  }

  /** An entry strictly above `x` and at most `y` makes the count at `y`
      strictly larger than the count at `x`. */
  lemma {:induction false} CountAtMostStrict(arr: seq<real>, x: real, y: real, k: nat)
    requires k < |arr| && x < arr[k] <= y
    ensures CountAtMost(arr, x) < CountAtMost(arr, y)
  {
    var n := |arr| - 1;
    CountAtMostMonotone(arr[..n], x, y);
    if k < n {
      CountAtMostStrict(arr[..n], x, y, k);
    }
  }

  /** An entry at most `x` is counted. */
  lemma {:induction false} CountAtMostPositive(arr: seq<real>, x: real, k: nat)
    requires k < |arr| && arr[k] <= x
    ensures CountAtMost(arr, x) >= 1
  {
    var n := |arr| - 1;
    if k < n {
      CountAtMostPositive(arr[..n], x, k);
    }
  }

  /** Every entry counts itself. */
  lemma CountsSelf(arr: seq<real>)
    ensures forall c :: 0 <= c < |arr| ==> CountAtMost(arr, arr[c]) >= 1
  {
    forall c | 0 <= c < |arr|
      ensures CountAtMost(arr, arr[c]) >= 1
    {
      CountAtMostPositive(arr, arr[c], c);
    }
  }

  /** Two distinct entries at most `x` are both counted. */
  lemma {:induction false} CountAtMostTwo(arr: seq<real>, x: real, a: nat, b: nat)
    requires a < b < |arr| && arr[a] <= x && arr[b] <= x
    ensures CountAtMost(arr, x) >= 2
  {
    var n := |arr| - 1;
    if b < n {
      CountAtMostTwo(arr[..n], x, a, b);
    } else {
      CountAtMostPositive(arr[..n], x, a);
    }
  }

  /** When every entry is at most `x`, all of them are counted. */
  lemma {:induction false} CountAtMostAll(arr: seq<real>, x: real)
    requires forall k :: 0 <= k < |arr| ==> arr[k] <= x
    ensures CountAtMost(arr, x) == |arr|
  {
    if arr != [] {
      CountAtMostAll(arr[..|arr| - 1], x);
    }
  }

  /** When only entry `c` is at most `x`, the count is one. */
  lemma {:induction false} CountAtMostOnly(arr: seq<real>, x: real, c: nat)
    requires c < |arr| && arr[c] <= x
    requires forall r :: 0 <= r < |arr| && r != c ==> arr[r] > x
    ensures CountAtMost(arr, x) == 1
  {
    var n := |arr| - 1;
    if c < n {
      CountAtMostOnly(arr[..n], x, c);
    } else {
      CountAtMostNone(arr[..n], x);
    }
  }

  /** When no entry is at most `x`, the count is zero. */
  lemma {:induction false} CountAtMostNone(arr: seq<real>, x: real)
    requires forall r :: 0 <= r < |arr| ==> arr[r] > x
    ensures CountAtMost(arr, x) == 0
  {
    if arr != [] {
      CountAtMostNone(arr[..|arr| - 1], x);
    }
  }

  /** Two rows whose entries compare the same way against their thresholds
      give the same count. */
  lemma {:induction false} CountAtMostSameOrder(arr: seq<real>, brr: seq<real>, x: real, y: real)
    requires |arr| == |brr|
    requires forall k :: 0 <= k < |arr| ==> (arr[k] <= x <==> brr[k] <= y)
    ensures CountAtMost(arr, x) == CountAtMost(brr, y)
  {
    if arr != [] {
      CountAtMostSameOrder(arr[..|arr| - 1], brr[..|brr| - 1], x, y);
    }
  }

  /** Entry `c` is the number of entries `r` with `arr[r] <= arr[c]`, the point
      itself included: a rank with ties in which the closest point gets the
      smallest count. */
  function Neighborhood(arr: seq<real>): (nbh: seq<nat>)
    ensures |nbh| == |arr|
    ensures forall c :: 0 <= c < |arr| ==> 1 <= nbh[c] <= |arr|
  {
    CountsSelf(arr);
    seq(|arr|, c requires 0 <= c < |arr| => CountAtMost(arr, arr[c]))
  }

  /** Entry `c` counts exactly the indices whose distance is at most `arr[c]`. */
  lemma NeighborhoodCounts(arr: seq<real>, c: nat)
    requires c < |arr|
    ensures Neighborhood(arr)[c] == |set r: nat | r < |arr| && arr[r] <= arr[c]|
  {
    CountAtMostIsCardinality(arr, arr[c]);
  }

  /** Counts follow the distances in both directions: a nearer or equally near
      point never has a larger count, and equal distances share a count. */
  lemma NeighborhoodOrder(arr: seq<real>, a: nat, b: nat)
    requires a < |arr| && b < |arr|
    ensures arr[a] <= arr[b] <==> Neighborhood(arr)[a] <= Neighborhood(arr)[b]
    ensures arr[a] == arr[b] <==> Neighborhood(arr)[a] == Neighborhood(arr)[b]
  {
    if arr[a] <= arr[b] {
      CountAtMostMonotone(arr, arr[a], arr[b]);
    }
    if arr[b] <= arr[a] {
      CountAtMostMonotone(arr, arr[b], arr[a]);
    }
    if arr[a] < arr[b] {
      CountAtMostStrict(arr, arr[a], arr[b], b);
    }
    if arr[b] < arr[a] {
      CountAtMostStrict(arr, arr[b], arr[a], a);
    }
  }

  /** A point gets the full count `|arr|` exactly when it is a farthest point. */
  lemma NeighborhoodFarthest(arr: seq<real>, c: nat)
    requires c < |arr|
    ensures Neighborhood(arr)[c] == |arr| <==> forall r :: 0 <= r < |arr| ==> arr[r] <= arr[c]
  {
    if forall r :: 0 <= r < |arr| ==> arr[r] <= arr[c] {
      CountAtMostAll(arr, arr[c]);
    } else {
      var r :| 0 <= r < |arr| && arr[r] > arr[c];
      NeighborhoodOrder(arr, r, c);
    }
  }

  /** A point gets count one exactly when every other point is strictly farther. */
  lemma NeighborhoodNearest(arr: seq<real>, c: nat)
    requires c < |arr|
    ensures Neighborhood(arr)[c] == 1 <==> forall r :: 0 <= r < |arr| && r != c ==> arr[r] > arr[c]
  {
    if forall r :: 0 <= r < |arr| && r != c ==> arr[r] > arr[c] {
      CountAtMostOnly(arr, arr[c], c);
    } else {
      var r :| 0 <= r < |arr| && r != c && arr[r] <= arr[c];
      if r < c {
        CountAtMostTwo(arr, arr[c], r, c);
      } else {
        CountAtMostTwo(arr, arr[c], c, r);
      }
    }
  }

  /** Counts depend only on how the distances compare, not on their values:
      rows ordered alike (a distance row and its squares, say) get the same
      counts. */
  lemma NeighborhoodOrderInvariant(arr: seq<real>, brr: seq<real>)
    requires |arr| == |brr|
    requires forall a, b :: 0 <= a < |arr| && 0 <= b < |arr| ==> (arr[a] <= arr[b] <==> brr[a] <= brr[b])
    ensures Neighborhood(arr) == Neighborhood(brr)
  {
    forall c | 0 <= c < |arr|
      ensures Neighborhood(arr)[c] == Neighborhood(brr)[c]
    {
      CountAtMostSameOrder(arr, brr, arr[c], brr[c]);
    }
  }

  // ---------------------------------------------------------------------
  // Neighbourhood matrix
  // ---------------------------------------------------------------------

  /** Row `q` holds the neighbourhood counts of every point with `q` as the
      reference point. */
  function NeighborhoodMatrix(d: seq<seq<real>>): (nbh: seq<seq<nat>>)
    requires IsDistanceMatrix(d) && |d| >= 1
    ensures |nbh| == |d| && IsSquare(nbh)
    ensures forall q :: 0 <= q < |d| ==> nbh[q] == Neighborhood(d[q])
    ensures forall q, i :: 0 <= q < |d| && 0 <= i < |d| ==> 1 <= nbh[q][i] <= |d|
    ensures AllPositive(nbh)
  {
    seq(|d|, q requires 0 <= q < |d| => Neighborhood(d[q]))
  }

  /** The diagonal entry of row `q` counts the points at distance zero from
      `q`; it is one exactly when no other point coincides with `q`. */
  lemma NeighborhoodDiagonal(d: seq<seq<real>>, q: nat)
    requires IsDistanceMatrix(d) && q < |d|
    ensures NeighborhoodMatrix(d)[q][q] == |set p: nat | p < |d| && d[q][p] == 0.0|
    ensures NeighborhoodMatrix(d)[q][q] == 1 <==> forall p :: 0 <= p < |d| && p != q ==> d[q][p] > 0.0
  {
    NeighborhoodCounts(d[q], q);
    forall p | 0 <= p < |d|
      ensures d[q][p] <= d[q][q] <==> d[q][p] == 0.0
    {
      assert d[q][p] >= 0.0;
    }
    assert (set r: nat | r < |d[q]| && d[q][r] <= d[q][q]) == (set p: nat | p < |d| && d[q][p] == 0.0);
    NeighborhoodNearest(d[q], q);
  }

  /** Two points with identical distance rows (the same point listed twice)
      count each other exactly as they count themselves, and their mass
      ratio is one. */
  lemma DuplicatePoints(d: seq<seq<real>>, p: nat, q: nat)
    requires IsDistanceMatrix(d) && p < |d| && q < |d|
    requires d[p] == d[q]
    ensures NeighborhoodMatrix(d)[p][q] == NeighborhoodMatrix(d)[q][q]
    ensures NeighborhoodMatrix(d)[q][p] == NeighborhoodMatrix(d)[q][q]
    ensures MassRatio(d)[p][q] == 1.0
  {
    assert d[p][q] == d[q][q] == 0.0;
    assert d[q][p] == d[p][p] == 0.0;
    var nbh := NeighborhoodMatrix(d);
    assert nbh[p][q] == nbh[q][p];
    RatioReciprocal(nbh[p][q] as real, nbh[q][p] as real);
  }

  // ---------------------------------------------------------------------
  // Mass ratio
  // ---------------------------------------------------------------------

  /** Every entry of `m` is at least one. */
  predicate AllPositive(m: seq<seq<nat>>)
  {
    forall i, j :: 0 <= i < |m| && 0 <= j < |m[i]| ==> m[i][j] >= 1
  }

  /** `m` divided element-wise by its transpose. */
  function DivideByTranspose(m: seq<seq<nat>>): (r: seq<seq<real>>)
    requires IsSquare(m) && AllPositive(m)
    ensures |r| == |m| && IsSquare(r)
    ensures forall i, j :: 0 <= i < |m| && 0 <= j < |m| ==> r[i][j] == m[i][j] as real / m[j][i] as real
  {
    seq(|m|, i requires 0 <= i < |m| =>
      seq(|m|, j requires 0 <= j < |m| => m[i][j] as real / m[j][i] as real))
  }

  /** The neighbourhood matrix divided element-wise by its transpose. Every
      count is at least one, so the division is always defined, and each
      point's ratio to itself is one. */
  function MassRatio(d: seq<seq<real>>): (mr: seq<seq<real>>)
    requires IsDistanceMatrix(d) && |d| >= 1
    ensures |mr| == |d| && IsSquare(mr)
    ensures forall i, j :: 0 <= i < |d| && 0 <= j < |d| ==>
      mr[i][j] == NeighborhoodMatrix(d)[i][j] as real / NeighborhoodMatrix(d)[j][i] as real
  {
    DivideByTranspose(NeighborhoodMatrix(d))
  }

  /** `a/b` is positive, its product with `b/a` is one, and it is one when
      `a == b`, for positive `a`, `b`. */
  lemma RatioReciprocal(a: real, b: real)
    requires a > 0.0 && b > 0.0
    ensures a / b > 0.0 && (a / b) * (b / a) == 1.0
    ensures a == b ==> a / b == 1.0
  {
    calc {
      (a / b) * (b / a);
      == (a * b) / (b * a);
      == 1.0;
    }
  }

  /** A ratio of two values in `1..n` lies in `1/n..n`. */
  lemma RatioBounds(a: real, b: real, n: real)
    requires 1.0 <= a <= n && 1.0 <= b <= n
    ensures 1.0 / n <= a / b <= n
  {
    assert a / b <= n by {
      assert a <= n * b by { assert n * b >= n * 1.0; }
    }
    assert 1.0 / n <= a / b by {
      calc {
        1.0 / n;
        <= { assert b <= n; assert b * (1.0 / n) <= n * (1.0 / n); }
        1.0 / b;
        <= a / b;
      }
    }
  }

  /** Dividing a matrix of positive counts by its transpose gives positive,
      reciprocal entries with ones on the diagonal. */
  lemma DivideByTransposeReciprocal(m: seq<seq<nat>>, i: nat, j: nat)
    requires IsSquare(m) && AllPositive(m) && i < |m| && j < |m|
    ensures DivideByTranspose(m)[i][j] > 0.0
    ensures DivideByTranspose(m)[i][j] * DivideByTranspose(m)[j][i] == 1.0
    ensures DivideByTranspose(m)[i][i] == 1.0
  {
    var r := DivideByTranspose(m);
    var a, b, c := m[i][j] as real, m[j][i] as real, m[i][i] as real;
    assert r[i][j] == a / b && r[j][i] == b / a && r[i][i] == c / c;
    RatioReciprocal(c, c);
    RatioReciprocal(a, b);
  }

  /** Mass ratios are positive and reciprocal: the ratio of `i` to `j` times
      the ratio of `j` to `i` is one, and each point's ratio to itself is one. */
  lemma MassRatioReciprocal(d: seq<seq<real>>, i: nat, j: nat)
    requires IsDistanceMatrix(d) && i < |d| && j < |d|
    ensures MassRatio(d)[i][j] > 0.0
    ensures MassRatio(d)[i][j] * MassRatio(d)[j][i] == 1.0
    ensures MassRatio(d)[i][i] == 1.0
  {
    DivideByTransposeReciprocal(NeighborhoodMatrix(d), i, j);
  }

  /** Mass ratios lie between `1/n` and `n`. */
  lemma MassRatioBounds(d: seq<seq<real>>, i: nat, j: nat)
    requires IsDistanceMatrix(d) && i < |d| && j < |d|
    ensures 1.0 / |d| as real <= MassRatio(d)[i][j] <= |d| as real
  {
    var nbh := NeighborhoodMatrix(d);
    RatioBounds(nbh[i][j] as real, nbh[j][i] as real, |d| as real);
  }

  // ---------------------------------------------------------------------
  // Outlier score
  // ---------------------------------------------------------------------

  /** Column `j` of a square matrix. */
  function Column(m: seq<seq<real>>, j: nat): (col: seq<real>)
    requires IsSquare(m) && j < |m|
    ensures |col| == |m|
    ensures forall k :: 0 <= k < |m| ==> col[k] == m[k][j]
  {
    seq(|m|, k requires 0 <= k < |m| => m[k][j])
  }

  /** `s` without its element at index `i`. */
  function Delete(s: seq<real>, i: nat): (r: seq<real>)
    requires i < |s|
    ensures |r| == |s| - 1
    ensures forall k :: 0 <= k < i ==> r[k] == s[k]
    ensures forall k :: i <= k < |r| ==> r[k] == s[k + 1]
    ensures multiset(r) + multiset{s[i]} == multiset(s)
  {
    assert s == s[..i] + [s[i]] + s[i + 1..];
    s[..i] + s[i + 1..]
  }

  /** The population variance of `col` with the element at index `i` left
      out; at least two values are needed so that one remains. */
  function MofPoint(col: seq<real>, i: nat): (v: real)
    requires i < |col| && |col| >= 2
    ensures v >= 0.0
  {
    Variance(Delete(col, i))
  }

  /** The element at index `i` itself has no influence on the score. */
  lemma MofPointIgnoresSelf(col: seq<real>, other: seq<real>, i: nat)
    requires i < |col| && |col| >= 2 && |other| == |col|
    requires forall k :: 0 <= k < |col| && k != i ==> col[k] == other[k]
    ensures MofPoint(col, i) == MofPoint(other, i)
  {
    assert Delete(col, i) == Delete(other, i);
  }

  /** The score is zero exactly when all the values other than the one at
      index `i` are equal. */
  lemma MofPointZero(col: seq<real>, i: nat)
    requires i < |col| && |col| >= 2
    ensures MofPoint(col, i) == 0.0 <==>
      forall a, b :: 0 <= a < |col| && 0 <= b < |col| && a != i && b != i ==> col[a] == col[b]
  {
    var rest := Delete(col, i);
    VarianceZero(rest);
    // `col[a]` is `rest[a]` for `a < i` and `rest[a - 1]` for `a > i`
    if forall a, b :: 0 <= a < |rest| && 0 <= b < |rest| ==> rest[a] == rest[b] {
      forall a, b | 0 <= a < |col| && 0 <= b < |col| && a != i && b != i
        ensures col[a] == col[b]
      {
        assert col[a] == rest[if a < i then a else a - 1];
        assert col[b] == rest[if b < i then b else b - 1];
      }
    } else {
      var a, b :| 0 <= a < |rest| && 0 <= b < |rest| && rest[a] != rest[b];
      assert rest[a] == col[if a < i then a else a + 1];
      assert rest[b] == col[if b < i then b else b + 1];
    }
  }

  /** A point's score is zero exactly when every other point has the same mass
      ratio with respect to it. */
  lemma MofScoreZero(d: seq<seq<real>>, i: nat)
    requires IsDistanceMatrix(d) && |d| >= 2 && i < |d|
    ensures MofPoint(Column(MassRatio(d), i), i) == 0.0 <==>
      forall a, b :: 0 <= a < |d| && 0 <= b < |d| && a != i && b != i ==>
        MassRatio(d)[a][i] == MassRatio(d)[b][i]
  {
    MofPointZero(Column(MassRatio(d), i), i);
  }

  /** The outlier score of every point: entry `i` is the variance of the mass
      ratios of all other points with respect to `i` (column `i` of the
      mass-ratio matrix without its diagonal entry). The scores are filled in
      one index at a time into a zero-initialised array. */
  method Mof(d: seq<seq<real>>) returns (scores: seq<real>)
    requires IsDistanceMatrix(d) && |d| >= 2
    ensures |scores| == |d|
    ensures forall i :: 0 <= i < |d| ==> scores[i] == MofPoint(Column(MassRatio(d), i), i)
    ensures forall i :: 0 <= i < |d| ==> scores[i] >= 0.0
  {
    var mr := MassRatio(d);
    var n := |d|;
    var out := new real[n](_ => 0.0);
    for i := 0 to n
      invariant forall k :: 0 <= k < i ==> out[k] == MofPoint(Column(mr, k), k)
      invariant forall k :: i <= k < n ==> out[k] == 0.0
    {
      out[i] := MofPoint(Column(mr, i), i);
    }
    scores := out[..];
  }
}
