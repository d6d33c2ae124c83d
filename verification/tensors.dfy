/**
  The part of the tensor library that the recommender utilities lean on,
  modelled over exact integers: two-dimensional tensors with their shape,
  construction of a zero tensor, transposition, concatenation along either
  dimension and summation along the last dimension.  A call the library would
  reject with an exception returns a `Failure` here instead.
 */
module Tensors {

  /** The reasons a library call (or an `assert` in the calling code) fails. */
  datatype Error =
    | ShapeMismatch      // tensors disagree in a dimension the operation needs equal
    | NegativeDimension  // a tensor was requested with a negative size
    | AssertionFailed    // an `assert` in the calling code did not hold

  /** Either a value or the error the library would have raised. */
  datatype Result<+T> = Success(value: T) | Failure(error: Error) {

    predicate IsFailure() {
      Failure?
    }

    /**
      Carries the error of a failure over to a result of another type.  It is
      total rather than `requires Failure?`: where every call is known to
      succeed (as in the adjacency conversion), the failure branch of `:-` is
      unreachable, and a precondition checked there would be proved only from
      contradictory facts.  The `Success` case is never reached through `:-`.
     */
    function PropagateFailure<U>(): Result<U> {
      match this
      case Failure(e) => Failure(e)
      case Success(_) => Failure(AssertionFailed)
    }

    function Extract(): T
      requires Success?
    {
      value
    }
  }

  /**
    A two-dimensional tensor.  The shape is kept beside the rows, so that a
    tensor with no rows still knows how many columns it has, as a 0 x m tensor
    does in the library.
   */
  datatype Matrix = Matrix(rows: nat, cols: nat, cells: seq<seq<int>>) {

    /** Every tensor the library hands out is rectangular and has the shape it claims. */
    predicate Valid() {
      |cells| == rows && forall i :: 0 <= i < |cells| ==> |cells[i]| == cols
    }
  }

  /** A row holding only zeros and ones. */
  predicate Binary(row: seq<int>) {
    forall j :: 0 <= j < |row| ==> row[j] == 0 || row[j] == 1
  }

  /** A tensor whose every entry is zero or one. */
  predicate BinaryMatrix(a: Matrix) {
    forall i :: 0 <= i < |a.cells| ==> Binary(a.cells[i])
  }

  /** `zeros((rows, cols))`: refused for a negative size, otherwise all entries zero. */
  function Zeros(rows: int, cols: int): (z: Result<Matrix>)
    ensures z.Success? <==> 0 <= rows && 0 <= cols
    ensures z.Failure? ==> z.error == NegativeDimension
    ensures z.Success? ==> z.value.Valid() && z.value.rows == rows && z.value.cols == cols
    ensures z.Success? ==>
      forall i, j :: 0 <= i < rows && 0 <= j < cols ==> z.value.cells[i][j] == 0
  {
    if rows < 0 || cols < 0 then Failure(NegativeDimension)
    else Success(Matrix(rows, cols, seq(rows, _ => seq(cols, _ => 0))))
  }

  /** `a.T`: rows become columns. */
  function Transpose(a: Matrix): (t: Matrix)
    requires a.Valid()
    ensures t.Valid() && t.rows == a.cols && t.cols == a.rows
    ensures forall i, j :: 0 <= i < t.rows && 0 <= j < t.cols ==> t.cells[i][j] == a.cells[j][i]
  {
    Matrix(a.cols, a.rows,
      seq(a.cols, i requires 0 <= i < a.cols =>
        seq(a.rows, j requires 0 <= j < a.rows => a.cells[j][i])))
  }

  /** Two valid tensors with the same shape and the same entries are the same tensor. */
  lemma {:induction false} MatrixExtensionality(a: Matrix, b: Matrix)
    requires a.Valid() && b.Valid()
    requires a.rows == b.rows && a.cols == b.cols
    requires forall i, j :: 0 <= i < a.rows && 0 <= j < a.cols ==> a.cells[i][j] == b.cells[i][j]
    ensures a == b
  {
    forall i | 0 <= i < a.rows
      ensures a.cells[i] == b.cells[i]
    {
      assert forall j :: 0 <= j < a.cols ==> a.cells[i][j] == b.cells[i][j];
    }
    assert a.cells == b.cells;
  }

  /** Transposing twice gives the tensor back. */
  lemma TransposeInvolution(a: Matrix)
    requires a.Valid()
    ensures Transpose(Transpose(a)) == a
  {
    MatrixExtensionality(Transpose(Transpose(a)), a);
  }

  /** `cat([a, b], dim=1)`: `b`'s columns placed to the right of `a`'s; the row counts must agree. */
  function CatColumns(a: Matrix, b: Matrix): (c: Result<Matrix>)
    requires a.Valid() && b.Valid()
    ensures c.Success? <==> a.rows == b.rows
    ensures c.Failure? ==> c.error == ShapeMismatch
    ensures c.Success? ==> c.value.Valid() && c.value.rows == a.rows && c.value.cols == a.cols + b.cols
    ensures c.Success? ==>
      forall i, j :: 0 <= i < a.rows && 0 <= j < a.cols ==> c.value.cells[i][j] == a.cells[i][j]
    ensures c.Success? ==>
      forall i, j :: 0 <= i < b.rows && 0 <= j < b.cols ==> c.value.cells[i][a.cols + j] == b.cells[i][j]
  {
    if a.rows != b.rows then Failure(ShapeMismatch)
    else Success(Matrix(a.rows, a.cols + b.cols,
      seq(a.rows, i requires 0 <= i < a.rows => a.cells[i] + b.cells[i])))
  }

  /** `cat([a, b], dim=0)`: `b`'s rows placed below `a`'s; the column counts must agree. */
  function CatRows(a: Matrix, b: Matrix): (c: Result<Matrix>)
    requires a.Valid() && b.Valid()
    ensures c.Success? <==> a.cols == b.cols
    ensures c.Failure? ==> c.error == ShapeMismatch
    ensures c.Success? ==> c.value.Valid() && c.value.rows == a.rows + b.rows && c.value.cols == a.cols
    ensures c.Success? ==>
      forall i, j :: 0 <= i < a.rows && 0 <= j < a.cols ==> c.value.cells[i][j] == a.cells[i][j]
    ensures c.Success? ==>
      forall i, j :: 0 <= i < b.rows && 0 <= j < b.cols ==> c.value.cells[a.rows + i][j] == b.cells[i][j]
  {
    if a.cols != b.cols then Failure(ShapeMismatch)
    else Success(Matrix(a.rows + b.rows, a.cols, a.cells + b.cells))
  }

  /** The sum of the entries of one row. */
  function Sum(row: seq<int>): int
  {
    if |row| == 0 then 0 else row[0] + Sum(row[1..])
  }

  /** `sum(a, dim=-1)`: one total per row. */
  function SumLastDim(a: Matrix): (s: seq<int>)
    requires a.Valid()
    ensures |s| == a.rows
    ensures forall i :: 0 <= i < a.rows ==> s[i] == Sum(a.cells[i])
  {
    seq(a.rows, i requires 0 <= i < a.rows => Sum(a.cells[i]))
  }

  /** The sum of a concatenation is the sum of the parts. */
  lemma {:induction false} SumAppend(x: seq<int>, y: seq<int>)
    ensures Sum(x + y) == Sum(x) + Sum(y)
  {
    if |x| > 0 {
      assert (x + y)[1..] == x[1..] + y;
      SumAppend(x[1..], y);
    } else {
      assert x + y == y;
    }
  }

  /** A row of zeros and ones sums to its number of ones, which lies between 0 and its length. */
  lemma {:induction false} BinarySumCountsOnes(row: seq<int>)
    requires Binary(row)
    ensures Sum(row) == multiset(row)[1]
    ensures 0 <= Sum(row) <= |row|
  {
    if |row| > 0 {
      assert row == [row[0]] + row[1..];
      assert multiset(row) == multiset{row[0]} + multiset(row[1..]);
      BinarySumCountsOnes(row[1..]);
    }
  }
}
