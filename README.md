# SimMetrics: Smith-Waterman and Jaccard similarity in Dafny

This project models two string-similarity metrics from the SimMetrics Java
library and proves what they guarantee.

**Smith-Waterman** (`SmithWaterman`, `SmithWatermanProperties`, `Maxima`).
A metric is a gap cost plus a substitution cost function. The cost function is
`cost(s, i, t, j)` together with the bound `maxCost` that it claims.
`getUnNormalisedSimilarity` returns early for empty strings: the length of the
other string. Otherwise it fills an `|s| x |t|` matrix `d` in three loops and
keeps a running maximum `maxSoFar`:

- column 0, top to bottom;
- row 0, left to right, which writes `d[0][0]` again;
- the interior, row by row.

The model is a method over an `array2<real>`, with one method per loop. Each
loop keeps these invariants:

- every cell written so far equals the recursive specification `Cell`;
- the running maximum equals a specification function of the cells filled so
  far.

The method's result is the maximum of zero and every cell of the matrix.
`getSimilarity` divides that raw score by
`min(|s|, |t|) * (maxCost if maxCost > -gapCost else -gapCost)`. It returns 1
when this divisor is 0. `getSimilarityTimingEstimated` is
`(n*m + n + m) * 1.61e-4`.

The proved properties are:

- With a non-negative gap cost, the matrix is the textbook local-alignment
  matrix with a zero border.
- Every cell is non-negative.
- With a non-negative gap cost and costs bounded by `maxCost`, cell `(i, j)`
  is at most `min(i+1, j+1) * maxCost`. The raw score is then at most
  `min(|s|, |t|) * maxCost`, and the similarity lies in [0, 1].
- For a symmetric cost function, the matrix of `t` against `s` is the
  transpose of the matrix of `s` against `t`, and the similarity is
  symmetric.
- A string whose every position matches itself at the bounding `maxCost` has
  similarity 1 with itself.
- The timing estimate is symmetric and monotone.

Strings are sequences of UTF-16 code units (`JavaString`), as Java's
`length()` counts them and as the cost function's positions index them. A
character outside the Basic Multilingual Plane therefore takes two
positions.

**Jaccard** (`JaccardSimilarity`). Each tokenised string becomes a hash set.
`allTokens` is read for its size and then widened in place into the union.
`commonTerms = |A| + |B| - |A or B|`, and the result is `commonTerms / |A or B|`.
The model is a method with set-valued locals. It is proved equal to the
reference `|A & B| / |A or B|` over the distinct tokens, and `NaN` exactly
when both token lists are empty, through inclusion-exclusion.
The result lies in [0, 1], is symmetric, is 1 for identical non-empty token
sets and 0 for disjoint ones, and is unchanged by duplicated tokens. The
timing estimate counts tokens with their duplicates.

Points where the code behaves in a way a reader might not expect:

- The Smith-Waterman divisor uses the negated gap cost and the comparison
  `maxCost > -gapCost` (SmithWaterman.java:131-137).
- A negative gap cost is accepted; the constructors do not check it
  (SmithWaterman.java:79-113). The theorems that need a non-negative gap cost
  take it as a hypothesis.
- Apart from `d[0][0]`, the first row and the first column extend their
  neighbour by a gap rather than reading an implicit zero border
  (SmithWaterman.java:181-208). `CellMatchesTextbook` shows that the two agree
  when the gap cost is non-negative.
- Jaccard on two empty token lists computes `0f / 0f`, which is `NaN`
  (JaccardSimilarity.java:131).
- `getSimilarity` returns 1.0 whenever the divisor is 0, and so whenever
  either string is empty, although its comment speaks only of both strings
  being empty (SmithWaterman.java:140-141).

## Model

| member | source | states |
|---|---|---|
| SmithWaterman.WithCostFunction | src/main/java/uk/ac/shef/wit/simmetrics/similaritymetrics/SmithWaterman.java:108-113 | the metric built from a cost function alone charges a gap cost of 0.5 and keeps that cost function |
| SmithWaterman.Cell | src/main/java/uk/ac/shef/wit/simmetrics/similaritymetrics/SmithWaterman.java:181-225 | every cell of the matrix, on the border and in the interior, is non-negative, because 0 is a candidate of every `max3`/`max4` |
| SmithWaterman.RowMaxIsMax | src/main/java/uk/ac/shef/wit/simmetrics/similaritymetrics/SmithWaterman.java:195-208 | the running maximum over a stretch of a row bounds every cell in it, is non-negative, and is 0 or one of those cells |
| SmithWaterman.ColumnMaxIsMax | src/main/java/uk/ac/shef/wit/simmetrics/similaritymetrics/SmithWaterman.java:181-194 | the running maximum after the first-column loop bounds every cell of column 0 and is 0 or one of them |
| SmithWaterman.FillMaxIsMax | src/main/java/uk/ac/shef/wit/simmetrics/similaritymetrics/SmithWaterman.java:180-225 | after column 0, row 0 and each further interior row, the running maximum is the maximum of 0 and every cell filled so far |
| SmithWaterman.FillMaxIsMatrixMax | src/main/java/uk/ac/shef/wit/simmetrics/similaritymetrics/SmithWaterman.java:180-228 | once all rows are filled, the running maximum is the maximum of 0 and every cell of the matrix |
| SmithWaterman.GetUnNormalisedSimilarity | src/main/java/uk/ac/shef/wit/simmetrics/similaritymetrics/SmithWaterman.java:157-229 | an empty `s` gives `\|t\|`; otherwise an empty `t` gives `\|s\|`; otherwise the result bounds every cell, is non-negative, and is 0 or some cell |
| SmithWaterman.FillFirstColumn | src/main/java/uk/ac/shef/wit/simmetrics/similaritymetrics/SmithWaterman.java:181-194 | after the loop, `d[i][0]` holds `Cell(i, 0)` for every row, leaves every other column as it was, and `maxSoFar` is the larger of its old value and every cell of column 0 |
| SmithWaterman.FillFirstRow | src/main/java/uk/ac/shef/wit/simmetrics/similaritymetrics/SmithWaterman.java:195-208 | after the loop, `d[0][j]` holds `Cell(0, j)`, column 0 still holds its values (`d[0][0]` is rewritten with the same value), the other cells keep theirs, and `maxSoFar` also covers row 0 |
| SmithWaterman.FillInterior | src/main/java/uk/ac/shef/wit/simmetrics/similaritymetrics/SmithWaterman.java:212-225 | starting from the filled border, the nested loop leaves every cell `d[i][j]` equal to `Cell(i, j)` and `maxSoFar` equal to the running maximum over the whole matrix |
| SmithWaterman.FillRow | src/main/java/uk/ac/shef/wit/simmetrics/similaritymetrics/SmithWaterman.java:213-224 | one pass of the inner loop sets `d[i][j]` to `max4(0, d[i-1][j] - gap, d[i][j-1] - gap, d[i-1][j-1] + cost)` for every `j >= 1`, leaves every other row as it was, and raises `maxSoFar` to cover the row |
| SmithWaterman.GetSimilarity | src/main/java/uk/ac/shef/wit/simmetrics/similaritymetrics/SmithWaterman.java:128-146 | the result is the raw score over `min(\|s\|,\|t\|) * (maxCost if maxCost > -gapCost else -gapCost)`, or 1 when that divisor is 0, which includes every case where a string is empty |
| SmithWaterman.SimilarityTimingEstimated | src/main/java/uk/ac/shef/wit/simmetrics/similaritymetrics/SmithWaterman.java:119-126 | the estimate `(n*m + n + m) * 1.61e-4` is never negative |
| SmithWatermanProperties.CellMatchesTextbook | src/main/java/uk/ac/shef/wit/simmetrics/similaritymetrics/SmithWaterman.java:181-225 | with a non-negative gap cost, every cell equals the textbook local-alignment recurrence over a zero border, so the special first row and column lose nothing |
| SmithWatermanProperties.CellBound | src/main/java/uk/ac/shef/wit/simmetrics/similaritymetrics/SmithWaterman.java:181-225 | with a non-negative gap cost and every cost at most `maxCost`, cell `(i, j)` is at most `min(i+1, j+1)` copies of `max(maxCost, 0)` |
| SmithWatermanProperties.CellBoundProduct | src/main/java/uk/ac/shef/wit/simmetrics/similaritymetrics/SmithWaterman.java:181-225 | under the same conditions and a non-negative `maxCost`, `d[i][j] <= min(i+1, j+1) * maxCost` |
| SmithWatermanProperties.TimesIsProduct | src/main/java/uk/ac/shef/wit/simmetrics/similaritymetrics/SmithWaterman.java:132-137 | `k` copies of a score added up are `k` times the score, which links the cell bounds to the product in the divisor |
| SmithWatermanProperties.RawScoreBound | src/main/java/uk/ac/shef/wit/simmetrics/similaritymetrics/SmithWaterman.java:131-145 | for two non-empty strings, the raw score is non-negative and at most `min(\|s\|, \|t\|)` copies of `max(maxCost, 0)` |
| SmithWatermanProperties.RawScoreBoundProduct | src/main/java/uk/ac/shef/wit/simmetrics/similaritymetrics/SmithWaterman.java:131-145 | under the same conditions and a non-negative `maxCost`, the raw score is at most `min(\|s\|, \|t\|) * maxCost` |
| SmithWatermanProperties.SimilarityInUnitRange | src/main/java/uk/ac/shef/wit/simmetrics/similaritymetrics/SmithWaterman.java:128-146 | with a non-negative gap cost and costs bounded by `maxCost`, the normalised similarity lies in [0, 1] |
| SmithWatermanProperties.CellTranspose | src/main/java/uk/ac/shef/wit/simmetrics/similaritymetrics/SmithWaterman.java:181-225 | for a symmetric cost function, cell `(i, j)` for `s` against `t` equals cell `(j, i)` for `t` against `s` |
| SmithWatermanProperties.MatrixMaxTranspose | src/main/java/uk/ac/shef/wit/simmetrics/similaritymetrics/SmithWaterman.java:180-228 | for a symmetric cost function, the maximum of the matrix is also the maximum of the transposed matrix |
| SmithWatermanProperties.RawScoreSymmetric | src/main/java/uk/ac/shef/wit/simmetrics/similaritymetrics/SmithWaterman.java:157-229 | for a symmetric cost function, the raw score does not depend on the order of the two strings |
| SmithWatermanProperties.NormalisingMaxSymmetric | src/main/java/uk/ac/shef/wit/simmetrics/similaritymetrics/SmithWaterman.java:131-137 | the divisor does not depend on the order of the two strings |
| SmithWatermanProperties.SimilaritySymmetric | src/main/java/uk/ac/shef/wit/simmetrics/similaritymetrics/SmithWaterman.java:128-146 | for a symmetric cost function, the normalised similarity does not depend on the order of the two strings |
| SmithWatermanProperties.DiagonalReachesLimit | src/main/java/uk/ac/shef/wit/simmetrics/similaritymetrics/SmithWaterman.java:212-219 | when every position of `s` costs exactly `maxCost >= 0` against itself, diagonal cell `(i, i)` reaches `i + 1` copies of `maxCost` |
| SmithWatermanProperties.SelfSimilarityIsOne | src/main/java/uk/ac/shef/wit/simmetrics/similaritymetrics/SmithWaterman.java:128-146 | for a non-empty `s`, a non-negative gap cost and a positive `maxCost` that bounds every cost and is reached on the diagonal, the raw score of `s` against itself is `\|s\| * maxCost` and the similarity is 1 |
| SmithWatermanProperties.TimingEstimateSymmetricMonotone | src/main/java/uk/ac/shef/wit/simmetrics/similaritymetrics/SmithWaterman.java:119-126 | the timing estimate is symmetric in the two lengths and does not decrease when either grows |
| JaccardSimilarity.AddAll | src/main/java/uk/ac/shef/wit/simmetrics/similaritymetrics/JaccardSimilarity.java:118-123 | `addAll` of a token list leaves the set together with the distinct tokens of the list, and adds at most one element per token |
| JaccardSimilarity.DistinctAtMostLength | src/main/java/uk/ac/shef/wit/simmetrics/similaritymetrics/JaccardSimilarity.java:118-123 | duplicates collapse: a list has at most as many distinct tokens as tokens |
| JaccardSimilarity.CommonTerms | src/main/java/uk/ac/shef/wit/simmetrics/similaritymetrics/JaccardSimilarity.java:126-128 | `\|A\| + \|B\| - \|A or B\|` is the size of the intersection, between 0 and each of `\|A\|`, `\|B\|` and `\|A or B\|` |
| JaccardSimilarity.InclusionExclusion | src/main/java/uk/ac/shef/wit/simmetrics/similaritymetrics/JaccardSimilarity.java:126-128 | `\|A\| + \|B\| = \|A or B\| + \|A & B\|` for all token sets |
| JaccardSimilarity.IntersectionAtMost | src/main/java/uk/ac/shef/wit/simmetrics/similaritymetrics/JaccardSimilarity.java:127-131 | the intersection is no larger than the first set, which keeps `commonTerms` at most the union |
| JaccardSimilarity.GetSimilarity | src/main/java/uk/ac/shef/wit/simmetrics/similaritymetrics/JaccardSimilarity.java:100-132 | the result is `\|A & B\| / \|A or B\|` over the distinct tokens of the two lists, and `NaN` exactly when both lists are empty |
| JaccardSimilarity.NoTokensNoUnion | src/main/java/uk/ac/shef/wit/simmetrics/similaritymetrics/JaccardSimilarity.java:126-131 | the union of the distinct tokens is empty exactly when both token lists are empty |
| JaccardSimilarity.JaccardInUnitRange | src/main/java/uk/ac/shef/wit/simmetrics/similaritymetrics/JaccardSimilarity.java:127-131 | whenever some token is present, the result is a number in [0, 1] |
| JaccardSimilarity.JaccardSymmetric | src/main/java/uk/ac/shef/wit/simmetrics/similaritymetrics/JaccardSimilarity.java:100-132 | swapping the two token lists does not change the result |
| JaccardSimilarity.JaccardOfIdentical | src/main/java/uk/ac/shef/wit/simmetrics/similaritymetrics/JaccardSimilarity.java:126-131 | a non-empty token set compared with itself gives 1 |
| JaccardSimilarity.JaccardOfDisjoint | src/main/java/uk/ac/shef/wit/simmetrics/similaritymetrics/JaccardSimilarity.java:126-131 | disjoint, not both empty token sets give 0 |
| JaccardSimilarity.DuplicatesCollapse | src/main/java/uk/ac/shef/wit/simmetrics/similaritymetrics/JaccardSimilarity.java:118-123 | repeating the first token list adds no distinct token and does not change the result |
| JaccardSimilarity.SimilarityTimingEstimated | src/main/java/uk/ac/shef/wit/simmetrics/similaritymetrics/JaccardSimilarity.java:93-98 | the estimate `\|tokens1\| * \|tokens2\| * 1.4e-4` is never negative |
| JaccardSimilarity.TimingCountsDuplicates | src/main/java/uk/ac/shef/wit/simmetrics/similaritymetrics/JaccardSimilarity.java:93-98 | the estimate counts tokens with their duplicates: repeating the first list doubles it |
| JaccardSimilarity.TimingEstimateSymmetricMonotone | src/main/java/uk/ac/shef/wit/simmetrics/similaritymetrics/JaccardSimilarity.java:93-98 | the estimate is symmetric in the two lists and does not decrease when either grows |

## Left out

- Floating point: scores are exact reals. `float` rounding, overflow to infinity, and the inexact binary values of `1.61e-4f` and `1.4e-4f` are not modelled. The only `NaN` modelled is Jaccard's `0f / 0f`.
- The substitution cost functions `AbstractSubstitutionCost` and `SubCost1_Minus2` are not part of this model. The cost is a parameter, and its bound `maxCost` is a hypothesis where a theorem needs it. So the two constructors that pick `SubCost1_Minus2` are left out. The other two are the `Metric` constructor and `WithCostFunction`.
- `utils.Math.max3`/`max4` are not part of this model. They are taken to be the plain maximum of their arguments (`Maxima`).
- Tokenisers are not part of this model. Both Jaccard operations take the token lists that the tokenizer would produce, and Smith-Waterman's timing estimate takes the strings.
- Jaccard tokens are Dafny `string` values. Only whether two tokens are equal matters, never their length or positions, so the UTF-16 representation is not modelled for them.
- `getLongDescriptionString` in both classes is a deprecated constant string with no behaviour.
- `HashSet` hashing and iteration order: only set contents and sizes matter, modelled with `set<string>`.
- SmithWaterman.GetSimilarity: it computes the divisor before the raw score, whereas the source calls `getUnNormalisedSimilarity` first. Both are free of side effects, so the result is the same.
- SmithWatermanProperties.CellBound: it needs `gapCost >= 0` and every cost at most `maxCost`. With a negative gap cost a gap raises the score and no such bound holds.
- SmithWatermanProperties.CellBound: it bounds by `max(maxCost, 0)` so that it also covers a negative `maxCost`. CellBoundProduct states the product form for `maxCost >= 0`.
- SmithWatermanProperties.CellMatchesTextbook: it needs `gapCost >= 0`. With a negative gap cost the source's first row and column differ from the zero-border recurrence.
- SmithWatermanProperties.DiagonalReachesLimit: it needs `maxCost >= 0`.
- SmithWatermanProperties.SimilaritySymmetric: it needs a cost function that scores `s[i]` against `t[j]` as it scores `t[j]` against `s[i]`. Without that the two matrices are unrelated.
