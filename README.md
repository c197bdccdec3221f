# Mass-ratio Outlier Factor (MOF) in Dafny

This project models the MOF outlier score of `MOF.py`. It starts from the pairwise distance matrix of n points and computes one score per point, in three stages:

1. **Neighbourhood counts** (`Neighborhood`, `NeighborhoodMatrix`). Take one row of distances, from a reference point q. Entry c is the number of points r with `dist[q][r] <= dist[q][c]`, the point itself included. This is a rank with ties in which the closest point gets the smallest count. Row q of the neighbourhood matrix is the count row for reference point q.
2. **Mass ratios** (`MassRatio`). The neighbourhood matrix is divided element-wise by its transpose: `mr[i][j] = nbh[i][j] / nbh[j][i]`.
3. **Scores** (`MofPoint`, `Mof`). Score i is the population variance (divisor = number of values) of column i of the mass-ratio matrix, with the diagonal entry `mr[i][i]` removed. `Mof` fills a zero-initialised array one index at a time, as the loop at `MOF.py:107-109` does.

All arithmetic is exact: counts are `nat`, ratios and variances are `real`.

Files:
- `statistics.dfy`: module `Statistics`. Sum, mean, squared deviation and population variance, with the fact that the variance is zero exactly when all values are equal.
- `mof.dfy`: module `MassRatioOutlier`. The pipeline and its properties.
- `examples.dfy`: module `MofExamples`. The two worked examples from the docstrings of `MOF.py` (lines 15 and 39-49).

What the code does, in the terms used throughout the model:
- The count is of points at most as far from the reference point as the candidate (`arr[r] <= arr[c]`, `MOF.py:29-30`), the candidate itself included (`MOF.py:11-13`).
- The diagonal entry is therefore the number of points at distance zero from q. That is 1 for distinct points, as in the docstring matrix at `MOF.py:45-49`.
- Row q holds the counts for reference point q, because the count is applied along axis 1 (`MOF.py:66`). The docstring at `MOF.py:59` ("point i respect to point j") can also be read with the column as the reference point; the model follows the code.
- Two identical points count each other with the same value they give themselves, which is the number of coincident copies. Their mass ratio is 1.

## Model

| member | source | states |
|---|---|---|
| `MassRatioOutlier.CountAtMost` | MOF.py:29-30 | The number of entries at most a threshold never exceeds the row length |
| `MassRatioOutlier.CountAtMostIsCardinality` | MOF.py:29-30 | The recursive counter equals the cardinality of the set of indices r with `arr[r] <= x` |
| `MassRatioOutlier.Neighborhood` | MOF.py:27-31 | The output has the input's length, and every count lies in `1..len(arr)` because the point itself is always counted |
| `MassRatioOutlier.NeighborhoodCounts` | MOF.py:27-30 | Entry c is exactly the number of indices r with `arr[r] <= arr[c]` |
| `MassRatioOutlier.NeighborhoodOrder` | MOF.py:29-30 | Counts are monotone in both directions: `arr[a] <= arr[b]` iff `nbh[a] <= nbh[b]`, and equal distances iff equal counts |
| `MassRatioOutlier.NeighborhoodFarthest` | MOF.py:15 | A point gets count n exactly when no point is farther from the reference point |
| `MassRatioOutlier.NeighborhoodNearest` | MOF.py:11-13 | A point gets count 1 exactly when every other point is strictly farther |
| `MassRatioOutlier.NeighborhoodOrderInvariant` | MOF.py:29-30 | Counts depend only on how the distances compare: two rows ordered alike get identical counts |
| `MofExamples.NeighborhoodExample` | MOF.py:15 | `Neighborhood([2,3,6,1,8]) == [2,3,4,1,5]` |
| `MassRatioOutlier.NeighborhoodMatrix` | MOF.py:61-67 | A square n×n matrix whose row q is the count row of distance row q, with every entry in `1..n` |
| `MassRatioOutlier.NeighborhoodDiagonal` | MOF.py:45-49 | The diagonal entry q counts the points at distance zero from q, and it is 1 exactly when no other point is at distance zero |
| `MofExamples.PointsNeighborhoodExample` | MOF.py:39-49 | Any distance matrix that orders each row like the Euclidean distances of the five documented points yields the documented neighbourhood matrix |
| `MofExamples.SquaredRowNeighborhood` | MOF.py:39-49 | The squared distances from each of the five documented points give the documented row of counts |
| `MassRatioOutlier.DuplicatePoints` | MOF.py:66 | Two points with identical distance rows count each other as they count themselves, and their mass ratio is 1 |
| `MassRatioOutlier.DivideByTranspose` | MOF.py:85 | Element-wise division by the transpose of a square matrix whose entries are all at least 1 |
| `MassRatioOutlier.MassRatio` | MOF.py:83-85 | A square matrix with `mr[i][j] = nbh[i][j] / nbh[j][i]`, always defined because every count is at least 1 |
| `MassRatioOutlier.DivideByTransposeReciprocal` | MOF.py:85 | Dividing a matrix of positive counts by its transpose gives positive entries, `r[i][j] * r[j][i] == 1`, and ones on the diagonal |
| `MassRatioOutlier.MassRatioReciprocal` | MOF.py:85 | Every mass ratio is positive, `mr[i][j] * mr[j][i] == 1`, and the diagonal is 1 |
| `MassRatioOutlier.MassRatioBounds` | MOF.py:85 | Every mass ratio lies between `1/n` and `n` |
| `MassRatioOutlier.Column` | MOF.py:109 | Column j holds entry j of every row |
| `MassRatioOutlier.Delete` | MOF.py:88 | Removing index i keeps the elements before i, shifts those after it, and removes exactly one occurrence of `s[i]` from the multiset |
| `Statistics.SquaredDeviation` | MOF.py:89 | The sum of squared deviations is never negative |
| `Statistics.Variance` | MOF.py:89 | The population variance is never negative |
| `Statistics.VarianceZero` | MOF.py:89 | The population variance is zero exactly when all values are equal |
| `MassRatioOutlier.MofPoint` | MOF.py:87-89 | The variance of the column without index i is never negative |
| `MassRatioOutlier.MofPointIgnoresSelf` | MOF.py:88 | The value at index i has no influence on the score: columns that agree elsewhere give equal scores |
| `MassRatioOutlier.MofPointZero` | MOF.py:87-89 | The score is zero exactly when all values other than index i are equal |
| `MassRatioOutlier.MofScoreZero` | MOF.py:105-109 | Point i scores zero exactly when every other point has the same mass ratio with respect to i |
| `MassRatioOutlier.Mof` | MOF.py:91-111 | Returns n scores. Score i is the variance of column i of the mass-ratio matrix with its diagonal removed, so it is never negative. The loop's invariant keeps unvisited entries at their initial 0 |

## Left out

- Euclidean distance (`MOF.py:4-5`) and the scipy `distance_matrix` call (`MOF.py:62`) are not modelled. They use a floating-point square root inside a foreign library. `MassRatioOutlier.NeighborhoodMatrix`, `MassRatioOutlier.MassRatio` and `MassRatioOutlier.Mof` take the distance matrix as an input that must be square, non-negative, symmetric and zero on the diagonal. `MassRatioOutlier.Neighborhood` takes one row of distances, and `MassRatioOutlier.MofPoint` and `MassRatioOutlier.Delete` take one column of mass ratios.
- `MassRatioOutlier.Mof` takes that distance matrix, not the raw points that `MOF.py:91` takes.
- Floating-point rounding in the divisions (`MOF.py:85`) and in `np.var` (`MOF.py:89`) is not modelled. Exact `real` arithmetic is used instead.
- `MassRatioOutlier.NeighborhoodMatrix` and `MassRatioOutlier.MassRatio` require at least one point, and `MassRatioOutlier.Mof` and `MassRatioOutlier.MofPoint` at least two. With no points, `MOF.py` returns no value: the distance step and `apply_along_axis` (`MOF.py:62-66`) raise `ValueError` on an empty array. With one point, `np.var` of the empty column (`MOF.py:89`) yields NaN with a runtime warning instead of a score.
- `MofExamples.PointsNeighborhoodExample` states the documented matrix for every distance matrix ordered like the squared distances of the five points, not for their square roots. The square root is strictly increasing, so this covers the Euclidean matrix, but that step is not proved here.
- The numpy mechanisms (broadcasting in `MOF.py:28-29`, `apply_along_axis`, `transpose`, `np.delete`) are modelled only by the values they compute. The dead `np.ones` at `MOF.py:65` is not modelled.
