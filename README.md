# Median imputation, modelled in Dafny

This project models clust4j's median imputation transform. The transform takes
a dataset, a non-empty rectangular matrix of doubles in which NaN marks a
missing observation. It returns an independent copy in which every missing
cell holds the median of the observed cells of its column. The model also
covers the planner that configures the transform (a seed and a verbosity
flag, with fluent setters) and the `copy()` operation of the transform.

Layout:

- `cells.dfy` (module `Cells`): a cell is `Missing` or `Value(v)` over
  the reals, so the NaN test becomes a constructor test. The module defines
  the missing count and the observed values of a column.
- `vec_utils.dfy` (module `VecUtils`): the missing-aware median, defined by
  sorting the observed values and taking the middle value, or the mean of the
  two middle values. The module proves that the result really is a median.
- `mat_utils.dfy` (module `MatUtils`): the dataset as an array of row
  arrays (`double[][]`), column extraction, and the deep copy.
- `median_imputation.dfy`:
  - module `Impute`: the planner class, the imputation class, `checkMat`,
    and `Operate` with its column loop and row loop over arrays;
  - module `ImputeExample`: the three-row example dataset, worked through
    the contract of `Operate`.

`Operate` is specified as follows.

- Its result is `IllegalInput` exactly when the dataset is empty, has no
  columns, or is ragged. Java throws at this point.
- Otherwise it returns a fresh matrix with fresh, distinct rows.
- The result has the input's shape.
- Every observed cell keeps its value.
- Every missing cell holds the median of the observed input values of its
  column.
- The per-column replacement counts equal the number of missing cells of each
  input column.
- A dataset without missing cells comes back unchanged.
- A column without any observed value stays missing, and all of its cells are
  counted.
- `Operate` has no `modifies` clause, so the verifier checks that the input
  is never written.

The column loop is proved against the pure function `ImputedBefore(g, c)`, the
dataset with its first `c` columns imputed. Its key step is `ImputeStep`: the
column about to be processed is still the input's column. This is why reading
the median from the copy rather than from the input (line 94) is correct.

## Model

| member | source | states |
|---|---|---|
| Impute.MedianImputation.Operate | src/com/clust4j/algo/preprocess/impute/MedianImputation.java:85-108 | rejects exactly the empty, column-less or ragged datasets; otherwise returns a fresh copy of the input's shape in which observed cells are kept, missing cells hold their column's median, per-column counts are the missing counts, clean data comes back unchanged and all-missing columns stay missing; the input is never written (no modifies clause) |
| Impute.ImputeColumns | src/com/clust4j/algo/preprocess/impute/MedianImputation.java:93-105 | the outer column loop turns the copy into the dataset with every column imputed and collects each column's missing count |
| Impute.ImputeColumn | src/com/clust4j/algo/preprocess/impute/MedianImputation.java:94-102 | one outer iteration: starting from the dataset with columns before `col` imputed, reads column `col` from the copy, takes its missing-aware median and fills it, leaving the columns before `col + 1` imputed; returns the column's missing count in the input |
| Impute.FillColumn | src/com/clust4j/algo/preprocess/impute/MedianImputation.java:96-102 | the inner row loop replaces exactly the missing cells of column `col` by the median, touches no other cell, and its counter ends at the column's missing count |
| Impute.FillCell | src/com/clust4j/algo/preprocess/impute/MedianImputation.java:98-101 | one row step: a missing cell is overwritten by the median and reported as replaced; an observed cell is left alone and not counted |
| Impute.ImputedBeforeNone | src/com/clust4j/algo/preprocess/impute/MedianImputation.java:88-93 | before the column loop the copy equals the input, so no column is imputed yet |
| Impute.ImputeStep | src/com/clust4j/algo/preprocess/impute/MedianImputation.java:93-102 | when column `c` is reached it still equals the input's column `c`, and filling it with its median imputes exactly one more column |
| Impute.ImputeStepRow | src/com/clust4j/algo/preprocess/impute/MedianImputation.java:97-101 | the same step, stated for one row |
| Impute.ImputedBeforeAll | src/com/clust4j/algo/preprocess/impute/MedianImputation.java:93-107 | the fully imputed dataset has the input's shape, keeps observed cells, fills missing cells with their column's median, leaves clean data unchanged and all-missing columns missing, and the counts are the missing counts |
| Impute.NoMissingUnchanged | src/com/clust4j/algo/preprocess/impute/MedianImputation.java:97-101 | if no cell is missing and observed cells are kept, the output equals the input |
| Impute.EmptyColumn | src/com/clust4j/algo/preprocess/impute/MedianImputation.java:94-101 | a column without observed values keeps all its cells missing, and its count equals the number of rows |
| Impute.EmptyColumns | src/com/clust4j/algo/preprocess/impute/MedianImputation.java:94-101 | the same fact for every such column at once |
| Impute.CheckMat | src/com/clust4j/algo/preprocess/impute/MedianImputation.java:86 | accepts a dataset if and only if it has a row, a first row that is non-empty, and rows all of the same length |
| Impute.MedianImputationPlanner.constructor | src/com/clust4j/algo/preprocess/impute/MedianImputation.java:31-34 | a new planner has the default verbosity and a new seed object |
| Impute.MedianImputationPlanner.SetSeed | src/com/clust4j/algo/preprocess/impute/MedianImputation.java:36-50 | sets the seed returned by the getter, leaves the verbosity unchanged, and returns the same planner |
| Impute.MedianImputationPlanner.SetVerbose | src/com/clust4j/algo/preprocess/impute/MedianImputation.java:41-56 | sets the verbosity returned by the getter, leaves the seed unchanged, and returns the same planner |
| Impute.MedianImputation.constructor | src/com/clust4j/algo/preprocess/impute/MedianImputation.java:19-21 | an imputation built without a planner has the default verbosity and a fresh seed |
| Impute.MedianImputation.FromPlanner | src/com/clust4j/algo/preprocess/impute/MedianImputation.java:23-25 | an imputation built from a planner takes over the planner's seed and verbosity |
| Impute.MedianImputation.Copy | src/com/clust4j/algo/preprocess/impute/MedianImputation.java:63-67 | a new imputation object, distinct from the original, with the same seed reference and the same verbosity |
| MatUtils.GetColumn | src/com/clust4j/algo/preprocess/impute/MedianImputation.java:94 | column extraction returns the cells of column `j`, one per row, in row order |
| MatUtils.Copy | src/com/clust4j/algo/preprocess/impute/MedianImputation.java:88 | the copy is a new outer array of new, pairwise distinct rows, with the same contents as the input |
| VecUtils.NanMedian | src/com/clust4j/algo/preprocess/impute/MedianImputation.java:94 | the result is missing if and only if the column has no observed value (equivalently, if every cell is missing); otherwise it is a median of the observed values, and one of them when their count is odd |
| VecUtils.Median | src/com/clust4j/algo/preprocess/impute/MedianImputation.java:94 | the result has at least half the values at or below it and at least half at or above it, and is one of the values when their count is odd |
| VecUtils.MedianBySorting | src/com/clust4j/algo/preprocess/impute/MedianImputation.java:94 | the median is the middle value, or the mean of the two middle values, of any sorted arrangement of the values |
| VecUtils.NanMedianBySorting | src/com/clust4j/algo/preprocess/impute/MedianImputation.java:94 | the missing-aware median of a column is the middle of any sorted arrangement of its observed values: the middle one for an odd count, the mean of the two middle ones for an even count |
| VecUtils.NanMedianOrderFree | src/com/clust4j/algo/preprocess/impute/MedianImputation.java:94 | the column median depends only on the multiset of observed values, not on row order nor on where the missing cells are |
| VecUtils.MiddleIsMedian | src/com/clust4j/algo/preprocess/impute/MedianImputation.java:94 | the middle of a sorted sequence has at least half the values on each side |
| VecUtils.Sort | src/com/clust4j/algo/preprocess/impute/MedianImputation.java:94 | the sort used by the median yields a sorted permutation of its input |
| VecUtils.SortedUnique | src/com/clust4j/algo/preprocess/impute/MedianImputation.java:94 | two sorted sequences with the same elements are equal, so the median does not depend on how the values are sorted |
| VecUtils.CountIfSort | src/com/clust4j/algo/preprocess/impute/MedianImputation.java:94 | sorting keeps the number of values on each side of a candidate median |
| Cells.Observed | src/com/clust4j/algo/preprocess/impute/MedianImputation.java:94 | the observed values of a column are as many as its non-missing cells |
| Cells.ObservedMembers | src/com/clust4j/algo/preprocess/impute/MedianImputation.java:94 | a value is among the observed values exactly when the column holds it as an observed cell |
| Cells.MissingCountStep | src/com/clust4j/algo/preprocess/impute/MedianImputation.java:98-100 | extending the scanned prefix by one cell raises the missing count by one exactly when that cell is missing |
| Cells.NoMissingIff | src/com/clust4j/algo/preprocess/impute/MedianImputation.java:96-102 | a column's missing count is zero if and only if every cell is observed |
| Cells.AllMissingIff | src/com/clust4j/algo/preprocess/impute/MedianImputation.java:96-102 | a column's missing count equals its length if and only if every cell is missing |
| ImputeExample.ThreeRowsColumns | src/com/clust4j/algo/preprocess/impute/MedianImputation.java:93-102 | in the dataset [[1, NaN], [3, 5], [5, NaN]] the first column has no missing cell, the second has two, and its median is 5 |
| ImputeExample.ThreeRowsImputed | src/com/clust4j/algo/preprocess/impute/MedianImputation.java:85-107 | every output the contract of `Operate` allows for that dataset is [[1, 5], [3, 5], [5, 5]], with counts [0, 2] |
| ImputeExample.ThreeRowsInput | src/com/clust4j/algo/preprocess/impute/MedianImputation.java:85 | builds that dataset as an array of row arrays |

## Left out

- Logging is not modelled: neither the `info` messages (lines 90 and 104) nor their text, including the singular/plural wording. The per-column counts that the source only logs are returned in `Imputed.nanCounts`, so that they can be stated.
- `operate(AbstractRealMatrix)` (lines 80-82) is not modelled. It wraps Apache Commons Math matrices, which are not part of this model.
- `getLoggerTag()` and `getName()` (lines 69-77) are not modelled. They return constants.
- The implementations of `checkMat`, `MatUtils.copy`, `MatUtils.getColumn` and `VecUtils.nanMedian` are not part of this model. Each is modelled from its documented behaviour:
  - `checkMat` as an error path, `IllegalInput` where Java throws;
  - the copy as a fresh deep copy;
  - column extraction as a loop over the rows;
  - the median as the middle of the sorted observed values, or the mean of the two middle ones.
- A `null` dataset or row cannot be expressed: Dafny's array types are non-null.
- IEEE doubles are modelled as reals. NaN payloads, infinities and the rounding of the two-middle-values mean are not modelled.
- `java.util.Random` is an opaque reference. Nothing draws from it.
- The abstract base classes (`MatrixImputation`, `ImputationPlanner`) are not part of this model. The imputation class holds the seed and verbosity fields directly, and the planner constructor is taken to store them.
- VecUtils.NanMedianBySorting: the concrete even/odd examples (observed values 1, 2, 3, 4 give 2.5; observed values 1, 2, 3 give 2) are not separate lemmas. They are instances of this general lemma, with the sorted arrangement `[1, 2, 3, 4]` and `[1, 2, 3]`.
