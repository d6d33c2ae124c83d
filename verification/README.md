# Graph recommender utilities: adjacency conversion and ranking metrics

A Dafny model of the numeric core of `utils.py` in a graph-based recommender:

- **Adjacency conversion** (`interaction_matrix_to_adj_matrix`): an n x m
  user-item interaction matrix R becomes the (n + m) x (n + m) adjacency matrix
  `[[0, R], [R^T, 0]]` of the bipartite graph, built from the same tensor
  library calls the source makes (zero tensor, transpose, concatenation by
  columns, concatenation by rows).
- **Recall and precision at k** (`RecallPrecision_ATk`): the per-user hit count
  as the row sum of the relevance matrix r, and the two ratios over exact reals
  with NaN and infinity collapsed into one `NonFinite` value.
- **NDCG at k** (`NDCGatK_r`), integer part: the length assertion and the
  ideal-relevance matrix whose row i has `min(|groundTruth[i]|, k)` leading ones.

Modules:

- `Tensors` (tensors.dfy): two-dimensional tensors with their shape
  (`Matrix`), a `Result` type for the exceptions the library raises
  (negative dimension, shape mismatch, failed `assert`), and the library calls
  used: `Zeros`, `Transpose`, `CatColumns` (dim 1), `CatRows` (dim 0),
  `SumLastDim` (sum over dim -1).
- `Adjacency` (adjacency.dfy): the conversion and its block layout.
- `Ranking` (ranking.dfy): hit counts, broadcasting division, means, recall
  and precision.
- `Ndcg` (ndcg.dfy): the ideal-relevance matrix.

The matrix `[[0, R], [R^T, 0]]` is symmetric for every R;
`Adjacency.AdjacencySymmetric` proves `A^T == A`.

Every Dafny function is deterministic, so running the conversion twice on
the same R gives the same A. No separate lemma states this.

## Model

| member | source | states |
|---|---|---|
| Tensors.Zeros | utils.py:58 | a zero tensor exists exactly for non-negative sizes (otherwise NegativeDimension), has the requested shape and holds only zeros |
| Tensors.Transpose | utils.py:62 | the transpose swaps the shape and puts a[j][i] at (i, j) |
| Tensors.TransposeInvolution | utils.py:62 | transposing twice gives back the original tensor |
| Tensors.CatColumns | utils.py:59 | concatenation along dim 1 succeeds exactly when the row counts agree; the left columns are a and the right columns are b |
| Tensors.CatRows | utils.py:64 | concatenation along dim 0 succeeds exactly when the column counts agree; the top rows are a and the bottom rows are b |
| Tensors.SumLastDim | utils.py:80 | `sum(r, dim=-1)` gives one total per row of r, total i being the sum of row i's entries |
| Tensors.BinarySumCountsOnes | utils.py:80 | a 0/1 row sums to its number of ones, which lies between 0 and the row length |
| Adjacency.InteractionToAdjacency | utils.py:43-65 | for every n x m R, no library call fails; the result is (n + m) x (n + m) with R top-right, R^T bottom-left and zero n x n and m x m diagonal blocks |
| Adjacency.AdjacencyMatchesLayout | utils.py:50-51 | every entry of the result equals the entry prescribed by the layout `[[0, R], [R^T, 0]]` |
| Adjacency.AdjacencyUnique | utils.py:50-56 | a matrix has the shape and the four block conditions exactly when it is the conversion's result |
| Adjacency.AdjacencySymmetric | utils.py:50-51 | the result equals its own transpose for every R |
| Adjacency.InteractionRecoverable | utils.py:58-64 | reading the top-right n x m block of the result gives R back, so no interaction is lost |
| Ranking.HitCounts | utils.py:80 | one hit count per user; for a 0/1 relevance matrix with k columns, each count is the number of ones in the row and lies in [0, k] |
| Ranking.LikedCounts | utils.py:82-83 | one entry per ground-truth list, holding that list's length |
| Ranking.Divide | utils.py:84-85 | tensor division is a number exactly when both operands are numbers and the divisor is non-zero, and then the quotient times the divisor gives the dividend; otherwise NaN or infinity |
| Ranking.Mean | utils.py:84-85 | `mean` of an empty tensor is NaN, of a tensor holding NaN or infinity is not a number, and otherwise is the value that multiplied by the count gives the total |
| Ranking.DivideElementwise | utils.py:84 | element-wise division broadcasts (equal lengths, or one side of length 1) and is a shape error otherwise; equal lengths divide pairwise, and a side of length 1 is divided against, or divides, every entry of the other side |
| Ranking.RecallPrecisionAtK | utils.py:68-86 | the metric pair is computed exactly when the hit and ground-truth vectors broadcast, and fails with a shape error otherwise |
| Ranking.MeanFiniteIff | utils.py:84-85 | a mean is a number exactly when there is at least one value and all values are numbers |
| Ranking.MeanBounds | utils.py:84-85 | the mean of values in [0, c] lies in [0, c] |
| Ranking.RecallDefinedIff | utils.py:82-84 | with one ground-truth list per user, recall is a number exactly when there is a user and no ground-truth list is empty |
| Ranking.RecallWithinUnit | utils.py:80-84 | when each user has ground truth and no more hits than ground-truth items, recall lies in [0, 1] |
| Ranking.PrecisionDefinedIff | utils.py:85 | precision is a number exactly when there is a user and k is not zero |
| Ranking.PrecisionWithinUnit | utils.py:80-85 | for a 0/1 relevance matrix with k > 0 columns, precision lies in [0, 1] |
| Ranking.WorkedExample | utils.py:80-86 | ground truth [[1,2,3],[4,5]], r = [[1,0],[0,1]] and k = 2 give recall 5/12 and precision 1/2 |
| Ranking.BroadcastExample | utils.py:80-86 | one shared ground-truth list [[1,2]], r = [[1,0],[1,1]] and k = 2 give recall 3/4 and precision 3/4 |
| Ndcg.FillPrefix | utils.py:107 | the slice assignment `row[:length] = 1` sets the first `length` entries to one and keeps the rest |
| Ndcg.IdealRow | utils.py:105-107 | an ideal row has length k, ones at the first min(|groundTruth[i]|, k) positions and zeros after |
| Ndcg.IdealRelevance | utils.py:101-107 | fails with AssertionFailed when len(r) differs from the number of users, and with NegativeDimension for a negative k; otherwise one row of length k per user, with ones exactly in the prefix of length min(|groundTruth[i]|, k) and a row sum of that length |
| Ndcg.IdealRowSum | utils.py:103-107 | an ideal row is 0/1 and holds exactly min(|groundTruth[i]|, k) ones |
| Ndcg.IdealRowZeroIff | utils.py:105-107 | an ideal row is all zeros exactly when the user's ground truth is empty or k is zero |

## Left out

- `MovieDataset` (utils.py:6-25): index lookup into three parallel sequences wrapped as tensors; it has no behaviour beyond indexing.
- `preprocess_neo4j_db` (utils.py:28-40): file reading, statement splitting, a graph-database session and printing; all of it is I/O and foreign calls.
- The DCG and IDCG values, the replacement of a zero IDCG by 1, of NaN by 0, and the final mean of `NDCGatK_r` (utils.py:109-115): they use `log2` weights and floating-point division.
- Floating-point rounding and dtypes: the zero blocks the library creates are floating point and concatenation promotes R's entries; the model keeps all entries as exact integers. Ratios and means are exact reals. The library's refusal to take the mean of an integer-typed tensor is not modelled.
- Ranking.RecallPrecisionAtK: NaN and the two infinities are collapsed into one `NonFinite` value, so the model does not say which of them the source produces.
- `.item()` (utils.py:86, 115): it only converts a one-element tensor to a scalar, which the model represents directly.
- Tensors of other ranks: R and r are two-dimensional tensors throughout.
- Ranking.RecallDefinedIff, Ranking.RecallWithinUnit, Ranking.PrecisionDefinedIff and Ranking.PrecisionWithinUnit are stated for one ground-truth list per user; the broadcast shapes (a single shared list, or a single row of r) are described by Ranking.DivideElementwise's contract and shown by Ranking.BroadcastExample, without separate definedness or bound lemmas.
