/**
  The integer part of NDCG@k: the ideal-relevance matrix.  Row i describes the
  best ranking user i could have received: a relevant item at every one of the
  first min(|groundTruth[i]|, k) positions and nothing relevant after them.
  The discounted gains computed from it are floating-point and not modelled.
 */
module Ndcg {
  import opened Tensors

  /** Python's `min` on two integers. */
  function Min(a: int, b: int): (m: int)
    ensures m <= a && m <= b && (m == a || m == b)
  {
    if a <= b then a else b
  }

  /** `row[:length] = 1`: the first `length` entries become one, the others are kept. */
  function FillPrefix(row: seq<int>, length: nat): (filled: seq<int>)
    requires length <= |row|
    ensures |filled| == |row|
    ensures forall j :: 0 <= j < length ==> filled[j] == 1
    ensures forall j :: length <= j < |row| ==> filled[j] == row[j]
  {
    seq(length, _ => 1) + row[length..]
  }

  /** A row of k zeros. */
  function ZeroRow(k: nat): (row: seq<int>)
    ensures |row| == k && forall j :: 0 <= j < k ==> row[j] == 0
  {
    seq(k, _ => 0)
  }

  /**
    The ideal row of a user with `liked` ground-truth items: a zero row of
    length k with its first min(liked, k) entries set to one.
   */
  function IdealRow(liked: nat, k: nat): (row: seq<int>)
    ensures |row| == k
    ensures forall j :: 0 <= j < k ==> row[j] == (if j < Min(liked, k) then 1 else 0)
  {
    FillPrefix(ZeroRow(k), Min(liked, k))
  }

  /**
    `NDCGatK_r` up to the ideal-relevance matrix: the assertion that r has one
    row per user, a zero matrix of len(r) rows and k columns (refused for a
    negative k), then row i filled with ones up to min(|groundTruth[i]|, k).
   */
  method IdealRelevance(groundTruth: seq<seq<int>>, r: Matrix, k: int) returns (res: Result<Matrix>)
    requires r.Valid()
    ensures r.rows != |groundTruth| ==> res == Failure(AssertionFailed)
    ensures r.rows == |groundTruth| && k < 0 ==> res == Failure(NegativeDimension)
    ensures res.Success? <==> r.rows == |groundTruth| && 0 <= k
    ensures res.Success? ==>
      res.value.Valid() && res.value.rows == |groundTruth| && res.value.cols == k
    ensures res.Success? ==>
      forall i, j :: 0 <= i < |groundTruth| && 0 <= j < k ==>
        res.value.cells[i][j] == (if j < Min(|groundTruth[i]|, k) then 1 else 0)
    ensures res.Success? ==>
      forall i :: 0 <= i < |groundTruth| ==> Sum(res.value.cells[i]) == Min(|groundTruth[i]|, k)
  {
    if r.rows != |groundTruth| {
      return Failure(AssertionFailed);
    }
    var zeros :- Zeros(r.rows, k);
    var width: nat := k;
    var cells := zeros.cells;
    var i := 0;
    while i < |groundTruth|
      invariant 0 <= i <= |groundTruth|
      invariant |cells| == |groundTruth|
      invariant forall p :: 0 <= p < i ==> cells[p] == IdealRow(|groundTruth[p]|, width)
      invariant forall p :: i <= p < |groundTruth| ==> cells[p] == ZeroRow(width)
    {
      assert cells[i] == zeros.cells[i];
      var length := Min(|groundTruth[i]|, width);
      cells := cells[i := FillPrefix(cells[i], length)];
      i := i + 1;
    }
    forall p | 0 <= p < |groundTruth|
      ensures Sum(cells[p]) == Min(|groundTruth[p]|, k)
    {
      IdealRowSum(|groundTruth[p]|, width);
    }
    return Success(Matrix(|groundTruth|, width, cells));
  }

  /** The ideal row is min(liked, k) ones followed by zeros. */
  lemma IdealRowShape(liked: nat, k: nat)
    ensures IdealRow(liked, k) == seq(Min(liked, k), _ => 1) + ZeroRow(k - Min(liked, k))
  {
  }

  /** A run of ones sums to its length. */
  lemma {:induction false} OnesSum(n: nat)
    ensures Sum(seq(n, _ => 1)) == n
  {
    if n > 0 {
      assert seq(n, _ => 1)[1..] == seq(n - 1, _ => 1);
      OnesSum(n - 1);
    }
  }

  /** A zero row sums to zero. */
  lemma {:induction false} ZeroRowSum(n: nat)
    ensures Sum(ZeroRow(n)) == 0
  {
    if n > 0 {
      assert ZeroRow(n)[1..] == ZeroRow(n - 1);
      ZeroRowSum(n - 1);
    }
  }

  /** The ideal row holds exactly min(liked, k) ones: its sum, and its count of ones. */
  lemma IdealRowSum(liked: nat, k: nat)
    ensures Binary(IdealRow(liked, k))
    ensures Sum(IdealRow(liked, k)) == Min(liked, k)
    ensures multiset(IdealRow(liked, k))[1] == Min(liked, k)
  {
    var m := Min(liked, k);
    IdealRowShape(liked, k);
    SumAppend(seq(m, _ => 1), ZeroRow(k - m));
    OnesSum(m);
    ZeroRowSum(k - m);
    BinarySumCountsOnes(IdealRow(liked, k));
  }

  /** The ideal row is all zeros exactly when the user has no ground truth or k is zero. */
  lemma IdealRowZeroIff(liked: nat, k: nat)
    ensures (forall j :: 0 <= j < k ==> IdealRow(liked, k)[j] == 0) <==> liked == 0 || k == 0
  {
    if liked > 0 && k > 0 {
      assert IdealRow(liked, k)[0] == 1;
    }
  }
}
