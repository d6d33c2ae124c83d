/**
  Conversion of a bipartite user-item interaction matrix R (n users x m items)
  into the adjacency matrix of the same graph with users and items numbered as
  one node set (users first, then items):

        ( 0    R )
    A = ( R^T  0 )      an (n + m) x (n + m) matrix.
 */
module Adjacency {
  import opened Tensors

  /** The entry of A at (p, q), read straight off the block layout above. */
  function BlockEntry(r: Matrix, p: nat, q: nat): int
    requires r.Valid() && p < r.rows + r.cols && q < r.rows + r.cols
  {
    var n := r.rows;
    if p < n && n <= q then r.cells[p][q - n]
    else if n <= p && q < n then r.cells[q][p - n]
    else 0
  }

  /** The shape and the four block conditions of the layout, for a candidate matrix `b`. */
  predicate HasBlockLayout(r: Matrix, b: Matrix)
    requires r.Valid() && b.Valid()
  {
    // (n + m) x (n + m)
    && b.rows == r.rows + r.cols && b.cols == r.rows + r.cols
    // the top-right n x m block is R
    && (forall i, j :: 0 <= i < r.rows && 0 <= j < r.cols ==> b.cells[i][r.rows + j] == r.cells[i][j])
    // the bottom-left m x n block is R^T
    && (forall i, j :: 0 <= i < r.rows && 0 <= j < r.cols ==> b.cells[r.rows + j][i] == r.cells[i][j])
    // the n x n user block is zero
    && (forall i, i' :: 0 <= i < r.rows && 0 <= i' < r.rows ==> b.cells[i][i'] == 0)
    // the m x m item block is zero
    && (forall p, q :: r.rows <= p < b.rows && r.rows <= q < b.rows ==> b.cells[p][q] == 0)
  }

  /**
    The conversion as the library calls perform it: a zero block sized from
    the total node count minus R's column count, with R to its right; R^T with
    a zero block sized from the total minus R^T's column count to its right;
    the two row-blocks stacked.  For every well-formed R each call succeeds,
    and the blocks land where the layout puts them.
   */
  function InteractionToAdjacency(r: Matrix): (res: Result<Matrix>)
    requires r.Valid()
    ensures res.Success?
    ensures res.value.Valid()
    ensures HasBlockLayout(r, res.value)
  {
    var adjSize := r.rows + r.cols;
    var upperZeros :- Zeros(adjSize - r.cols, adjSize - r.cols);
    var upper :- CatColumns(upperZeros, r);
    var rT := Transpose(r);
    var lowerZeros :- Zeros(adjSize - rT.cols, adjSize - rT.cols);
    var lower :- CatColumns(rT, lowerZeros);
    CatRows(upper, lower)
  }

  /** A matrix with the block layout has, at every position, the entry the layout prescribes. */
  lemma BlockLayoutEntries(r: Matrix, b: Matrix)
    requires r.Valid() && b.Valid() && HasBlockLayout(r, b)
    ensures forall p, q :: 0 <= p < b.rows && 0 <= q < b.rows ==> b.cells[p][q] == BlockEntry(r, p, q)
  {
  }

  /** Every entry of the conversion's result is the one the block layout prescribes. */
  lemma AdjacencyMatchesLayout(r: Matrix)
    requires r.Valid()
    ensures forall p, q :: 0 <= p < r.rows + r.cols && 0 <= q < r.rows + r.cols ==>
      InteractionToAdjacency(r).value.cells[p][q] == BlockEntry(r, p, q)
  {
  }

  /**
    The block layout pins the result down: a matrix has R top-right, R^T
    bottom-left and zero diagonal blocks exactly when it is the conversion's result.
   */
  lemma AdjacencyUnique(r: Matrix, b: Matrix)
    requires r.Valid() && b.Valid()
    ensures HasBlockLayout(r, b) <==> b == InteractionToAdjacency(r).value
  {
    if HasBlockLayout(r, b) {
      var a := InteractionToAdjacency(r).value;
      BlockLayoutEntries(r, b);
      BlockLayoutEntries(r, a);
      MatrixExtensionality(b, a);
    }
  }

  /** A is symmetric: it equals its own transpose, whatever R is. */
  lemma AdjacencySymmetric(r: Matrix)
    requires r.Valid()
    ensures Transpose(InteractionToAdjacency(r).value) == InteractionToAdjacency(r).value
  {
    var a := InteractionToAdjacency(r).value;
    var n := r.rows;
    AdjacencyMatchesLayout(r);
    forall p, q | 0 <= p < n + r.cols && 0 <= q < n + r.cols
      ensures a.cells[p][q] == a.cells[q][p]
    {
      assert a.cells[p][q] == BlockEntry(r, p, q) && a.cells[q][p] == BlockEntry(r, q, p);
    }
    MatrixExtensionality(Transpose(a), a);
  }

  /** The n x m block in the top-right corner of an adjacency matrix. */
  function UserItemBlock(a: Matrix, n: nat): (b: Matrix)
    requires a.Valid() && n <= a.rows && n <= a.cols
    ensures b.Valid() && b.rows == n && b.cols == a.cols - n
    ensures forall i, j :: 0 <= i < n && 0 <= j < a.cols - n ==> b.cells[i][j] == a.cells[i][n + j]
  {
    Matrix(n, a.cols - n, seq(n, i requires 0 <= i < n => a.cells[i][n..]))
  }

  /** No information is lost: the interaction matrix is read back from the top-right block. */
  lemma InteractionRecoverable(r: Matrix)
    requires r.Valid()
    ensures UserItemBlock(InteractionToAdjacency(r).value, r.rows) == r
  {
  }
}
