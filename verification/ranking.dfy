/**
  Recall@k and precision@k over a relevance matrix r, where r[i][j] says
  whether the j-th recommendation made to user i is one of that user's
  ground-truth items.

  The per-user hit count is exact integer arithmetic.  The ratios and means
  are stated over exact reals: a quotient by zero, and a mean over no users,
  become `NonFinite`, standing for the NaN or infinity the floating-point
  computation yields.  Rounding is not modelled.
 */
module Ranking {
  import opened Tensors

  /** A floating-point scalar as far as the metrics are concerned. */
  datatype Metric = Finite(value: real) | NonFinite

  /** Floating-point division: a zero divisor gives NaN or an infinity. */
  function Divide(x: Metric, y: Metric): (q: Metric)
    ensures q.Finite? <==> x.Finite? && y.Finite? && y.value != 0.0
    ensures q.Finite? ==> q.value * y.value == x.value
  {
    if x.Finite? && y.Finite? && y.value != 0.0 then Finite(x.value / y.value) else NonFinite
  }

  /** Floating-point addition: NaN and infinities absorb. */
  function Add(x: Metric, y: Metric): Metric
  {
    if x.Finite? && y.Finite? then Finite(x.value + y.value) else NonFinite
  }

  /** The sum of all values of `xs`. */
  function Total(xs: seq<Metric>): Metric
  {
    if |xs| == 0 then Finite(0.0) else Add(xs[0], Total(xs[1..]))
  }

  /** `mean` over a one-dimensional tensor: NaN when it is empty. */
  function Mean(xs: seq<Metric>): (m: Metric)
    ensures |xs| == 0 ==> m == NonFinite
    ensures !Total(xs).Finite? ==> m == NonFinite
    ensures |xs| > 0 && Total(xs).Finite? ==> m.Finite? && m.value * (|xs| as real) == Total(xs).value
  {
    if |xs| == 0 then NonFinite else Divide(Total(xs), Finite(|xs| as real))
  }

  /** Integers viewed as floating-point values. */
  function AsMetrics(xs: seq<int>): (ms: seq<Metric>)
    ensures |ms| == |xs|
    ensures forall i :: 0 <= i < |xs| ==> ms[i] == Finite(xs[i] as real)
  {
    seq(|xs|, i requires 0 <= i < |xs| => Finite(xs[i] as real))
  }

  /** The length of a broadcast of two one-dimensional tensors, when they are compatible. */
  function BroadcastLength(a: nat, b: nat): nat
    requires a == b || a == 1 || b == 1
  {
    if a == b then a else if a == 1 then b else a
  }

  /**
    Element-wise division of two one-dimensional tensors with broadcasting:
    equal lengths pair up, a tensor of length one is repeated against the
    other, and any other pair of lengths is a shape error.
   */
  function DivideElementwise(num: seq<Metric>, den: seq<Metric>): (q: Result<seq<Metric>>)
    ensures q.Success? <==> |num| == |den| || |num| == 1 || |den| == 1
    ensures q.Failure? ==> q.error == ShapeMismatch
    ensures q.Success? && |num| == |den| ==>
      |q.value| == |num| && forall i :: 0 <= i < |num| ==> q.value[i] == Divide(num[i], den[i])
    // a single numerator is repeated against every denominator
    ensures q.Success? && |num| == 1 ==>
      |q.value| == |den| && forall i :: 0 <= i < |den| ==> q.value[i] == Divide(num[0], den[i])
    // a single denominator is repeated against every numerator
    ensures q.Success? && |den| == 1 ==>
      |q.value| == |num| && forall i :: 0 <= i < |num| ==> q.value[i] == Divide(num[i], den[0])
  {
    if |num| == |den| || |num| == 1 || |den| == 1 then
      var n := BroadcastLength(|num|, |den|);
      Success(seq(n, i requires 0 <= i < n =>
        Divide(num[if |num| == 1 then 0 else i], den[if |den| == 1 then 0 else i])))
    else
      Failure(ShapeMismatch)
  }

  /** The number of ground-truth items of each user. */
  function LikedCounts(groundTruth: seq<seq<int>>): (liked: seq<int>)
    ensures |liked| == |groundTruth|
    ensures forall i :: 0 <= i < |groundTruth| ==> liked[i] == |groundTruth[i]|
  {
    seq(|groundTruth|, i requires 0 <= i < |groundTruth| => |groundTruth[i]|)
  }

  /**
    The number of hits of each user: the row sums of r.  For a binary r with
    k columns, each count is the number of ones in the row and lies in [0, k].
   */
  function HitCounts(r: Matrix): (hits: seq<int>)
    requires r.Valid()
    ensures hits == SumLastDim(r)
    ensures |hits| == r.rows
    ensures BinaryMatrix(r) ==>
      forall i :: 0 <= i < r.rows ==> hits[i] == multiset(r.cells[i])[1] && 0 <= hits[i] <= r.cols
  {
    var hits := SumLastDim(r);
    assert BinaryMatrix(r) ==>
      forall i :: 0 <= i < r.rows ==> hits[i] == multiset(r.cells[i])[1] && 0 <= hits[i] <= r.cols
    by {
      if BinaryMatrix(r) {
        forall i | 0 <= i < r.rows
          ensures hits[i] == multiset(r.cells[i])[1] && 0 <= hits[i] <= r.cols
        {
          BinarySumCountsOnes(r.cells[i]);
        }
      }
    }
    hits
  }

  /**
    `RecallPrecision_ATk`: recall is the mean over users of hits divided by
    ground-truth size; precision is the mean hit count divided by k.  The pair
    fails only when the two per-user vectors cannot be broadcast together.
   */
  function RecallPrecisionAtK(groundTruth: seq<seq<int>>, r: Matrix, k: int): (res: Result<(Metric, Metric)>)
    requires r.Valid()
    ensures res.Success? <==> |groundTruth| == r.rows || |groundTruth| == 1 || r.rows == 1
    ensures res.Failure? ==> res.error == ShapeMismatch
  {
    var numCorrect := AsMetrics(HitCounts(r));
    var numLiked := AsMetrics(LikedCounts(groundTruth));
    var ratios :- DivideElementwise(numCorrect, numLiked);
    var recall := Mean(ratios);
    var precision := Divide(Mean(numCorrect), Finite(k as real));
    Success((recall, precision))
  }

  /** The total of finite values is finite, and non-finite as soon as one value is. */
  lemma {:induction false} TotalFiniteIff(xs: seq<Metric>)
    ensures Total(xs).Finite? <==> forall i :: 0 <= i < |xs| ==> xs[i].Finite?
  {
    if |xs| > 0 {
      TotalFiniteIff(xs[1..]);
      assert forall i :: 1 <= i < |xs| ==> xs[i] == xs[1..][i - 1];
    }
  }

  /** A finite value in [0, c]. */
  predicate Within(x: Metric, c: real) {
    x.Finite? && 0.0 <= x.value <= c
  }

  /** Real arithmetic: if m * n == t for n > 0 and t lies in [0, n * c], then m lies in [0, c]. */
  lemma QuotientWithinBound(m: real, n: real, t: real, c: real)
    requires 0.0 < n && m * n == t && 0.0 <= t <= n * c
    ensures 0.0 <= m <= c
  {
  }

  /** A count of hits divided by a larger, positive count of items lies in [0, 1]. */
  lemma RatioWithinUnit(hits: int, liked: int)
    requires 0 <= hits <= liked && 0 < liked
    ensures Within(Divide(Finite(hits as real), Finite(liked as real)), 1.0)
  {
  }

  /** A total of values in [0, c] lies in [0, |xs| * c]. */
  lemma {:induction false} TotalBounds(xs: seq<Metric>, c: real)
    requires forall i :: 0 <= i < |xs| ==> Within(xs[i], c)
    ensures Within(Total(xs), |xs| as real * c)
  {
    if |xs| > 0 {
      var rest := xs[1..];
      assert forall i :: 0 <= i < |rest| ==> rest[i] == xs[i + 1];
      TotalBounds(rest, c);
      var n := |rest| as real;
      assert Within(xs[0], c);
      assert n * c + c == (n + 1.0) * c;
    }
  }

  /** The mean is finite exactly when there is a value and every value is finite. */
  lemma MeanFiniteIff(xs: seq<Metric>)
    ensures Mean(xs).Finite? <==> |xs| > 0 && forall i :: 0 <= i < |xs| ==> xs[i].Finite?
  {
    TotalFiniteIff(xs);
  }

  /** The mean of values in [0, c] lies in [0, c]. */
  lemma MeanBounds(xs: seq<Metric>, c: real)
    requires |xs| > 0
    requires forall i :: 0 <= i < |xs| ==> Within(xs[i], c)
    ensures Within(Mean(xs), c)
  {
    TotalBounds(xs, c);
    var n := |xs| as real;
    var t := Total(xs).value;
    var m := Mean(xs).value;
    assert 0.0 <= t <= n * c;
    assert m * n == t;
    QuotientWithinBound(m, n, t, c);
  }

  /**
    With one ground-truth entry per user, recall is a number exactly when
    there is at least one user and every user has at least one ground-truth
    item; an empty ground truth makes it NaN or infinite.
   */
  lemma RecallDefinedIff(groundTruth: seq<seq<int>>, r: Matrix, k: int)
    requires r.Valid() && |groundTruth| == r.rows
    ensures RecallPrecisionAtK(groundTruth, r, k).Success?
    ensures RecallPrecisionAtK(groundTruth, r, k).value.0.Finite? <==>
      r.rows > 0 && forall i :: 0 <= i < |groundTruth| ==> |groundTruth[i]| > 0
  {
    var numCorrect := AsMetrics(HitCounts(r));
    var numLiked := AsMetrics(LikedCounts(groundTruth));
    var ratios := DivideElementwise(numCorrect, numLiked).value;
    MeanFiniteIff(ratios);
    assert forall i :: 0 <= i < |ratios| ==> (ratios[i].Finite? <==> |groundTruth[i]| > 0);
  }

  /**
    When every user has ground-truth items and no more hits than ground-truth
    items, recall lies in [0, 1].
   */
  lemma RecallWithinUnit(groundTruth: seq<seq<int>>, r: Matrix, k: int)
    requires r.Valid() && BinaryMatrix(r) && |groundTruth| == r.rows > 0
    requires forall i :: 0 <= i < r.rows ==> 0 < |groundTruth[i]| && multiset(r.cells[i])[1] <= |groundTruth[i]|
    ensures RecallPrecisionAtK(groundTruth, r, k).Success?
    ensures Within(RecallPrecisionAtK(groundTruth, r, k).value.0, 1.0)
  {
    var hits := HitCounts(r);
    var numCorrect := AsMetrics(hits);
    var numLiked := AsMetrics(LikedCounts(groundTruth));
    var ratios := DivideElementwise(numCorrect, numLiked).value;
    forall i | 0 <= i < |ratios|
      ensures Within(ratios[i], 1.0)
    {
      RatioWithinUnit(hits[i], |groundTruth[i]|);
    }
    MeanBounds(ratios, 1.0);
  }

  /** Precision is a number exactly when there is at least one user and k is not zero. */
  lemma PrecisionDefinedIff(groundTruth: seq<seq<int>>, r: Matrix, k: int)
    requires r.Valid() && |groundTruth| == r.rows
    ensures RecallPrecisionAtK(groundTruth, r, k).Success?
    ensures RecallPrecisionAtK(groundTruth, r, k).value.1.Finite? <==> r.rows > 0 && k != 0
  {
    MeanFiniteIff(AsMetrics(HitCounts(r)));
  }

  /** For a binary r with k > 0 columns and at least one user, precision lies in [0, 1]. */
  lemma PrecisionWithinUnit(groundTruth: seq<seq<int>>, r: Matrix, k: int)
    requires r.Valid() && |groundTruth| == r.rows > 0
    requires BinaryMatrix(r) && r.cols == k > 0
    ensures RecallPrecisionAtK(groundTruth, r, k).Success?
    ensures Within(RecallPrecisionAtK(groundTruth, r, k).value.1, 1.0)
  {
    var hits := HitCounts(r);
    var numCorrect := AsMetrics(hits);
    var kr := k as real;
    forall i | 0 <= i < |numCorrect|
      ensures Within(numCorrect[i], kr)
    {
      assert 0 <= hits[i] <= k;
    }
    MeanBounds(numCorrect, kr);
    var mean := Mean(numCorrect);
    var precision := Divide(mean, Finite(kr));
    assert 0.0 <= mean.value <= kr * 1.0;
    assert precision.value * kr == mean.value;
    QuotientWithinBound(precision.value, kr, mean.value, 1.0);
    assert RecallPrecisionAtK(groundTruth, r, k).value.1 == precision;
  }

  /**
    A worked case: two users with three and two ground-truth items, one hit
    each among their top two; recall is (1/3 + 1/2) / 2 and precision 1/2.
   */
  lemma WorkedExample()
    ensures RecallPrecisionAtK([[1, 2, 3], [4, 5]], Matrix(2, 2, [[1, 0], [0, 1]]), 2)
      == Success((Finite(5.0 / 12.0), Finite(0.5)))
  {
  }

  /**
    A broadcast case: one ground-truth list of two items shared by two users
    with one and two hits among their top two; recall is (1/2 + 2/2) / 2 and
    precision (1 + 2) / 2 / 2.
   */
  lemma BroadcastExample()
    ensures RecallPrecisionAtK([[1, 2]], Matrix(2, 2, [[1, 0], [1, 1]]), 2)
      == Success((Finite(0.75), Finite(0.75)))
  {
  }
}
