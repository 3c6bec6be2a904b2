// Why the upper clamp of CronbachAlpha can never fire in exact arithmetic.
module AlphaBound {
  import opened RealSums
  import opened Cronbach

  // What each participant's answer to each item departs from that item's mean by.
  function DeviationMatrix(m: Matrix, k: nat): (d: Matrix)
    requires |m| > 0
    ensures |d| == |m| && Rectangular(d, k)
    ensures forall i, j :: 0 <= i < |m| && 0 <= j < k ==> d[i][j] == Cell(m[i], j) - Mean(Column(m, j))
  {
    seq(|m|, i requires 0 <= i < |m| =>
      seq(k, j requires 0 <= j < k => Cell(m[i], j) - Mean(Column(m, j))))
  }

  // Every participant departs from all the item means by the same amount.
  predicate SameDeviations(m: Matrix, k: nat)
    requires |m| > 0
  {
    forall i :: 0 <= i < |m| ==> Constant(DeviationMatrix(m, k)[i])
  }

  function ColumnSums(m: Matrix, k: nat): seq<real> {
    seq(k, j requires 0 <= j < k => Sum(Column(m, j)))
  }

  function Means(m: Matrix, k: nat): seq<real>
    requires |m| > 0
  {
    seq(k, j requires 0 <= j < k => Mean(Column(m, j)))
  }

  function SquaredMatrix(d: Matrix): Matrix {
    seq(|d|, i requires 0 <= i < |d| => Squares(d[i]))
  }

  function ItemSpreads(m: Matrix, k: nat): seq<real>
    requires |m| > 0
  {
    seq(k, j requires 0 <= j < k => SpreadAround(Column(m, j), Mean(Column(m, j))))
  }

  // Summing by rows or by columns.
  lemma {:induction false} SumSwap(m: Matrix, k: nat)
    requires Rectangular(m, k)
    ensures Sum(Totals(m)) == Sum(ColumnSums(m, k))
  {
    if |m| == 0 {
      assert forall j :: 0 <= j < k ==> Column(m, j) == [];
      SumConstant(ColumnSums(m, k), 0.0);
    } else {
      var n := |m| - 1;
      SumSwap(m[..n], k);
      assert Totals(m)[..n] == Totals(m[..n]);
      assert m[..n + 1] == m;
      forall j | 0 <= j < k ensures ColumnSums(m, k)[j] == ColumnSums(m[..n], k)[j] + m[n][j] {
        ColumnStep(m, n, j);
      }
      SumAdd(ColumnSums(m[..n], k), m[n], ColumnSums(m, k));
    }
  }

  lemma DivisionScales(x: real, n: real)
    requires n > 0.0
    ensures x / n == Mul(1.0 / n, x)
  {
  }

  lemma DivideEach(a: seq<real>, b: seq<real>, n: real)
    requires n > 0.0 && |a| == |b|
    requires forall j :: 0 <= j < |a| ==> b[j] == a[j] / n
    ensures Sum(b) == Sum(a) / n
  {
    forall j | 0 <= j < |a| ensures b[j] == Mul(1.0 / n, a[j]) {
      DivisionScales(a[j], n);
    }
    SumScale(a, b, 1.0 / n);
    DivisionScales(Sum(a), n);
  }

  lemma MeanOfTotals(m: Matrix, k: nat)
    requires |m| > 0 && Rectangular(m, k)
    ensures Mean(Totals(m)) == Sum(Means(m, k))
  {
    SumSwap(m, k);
    DivideEach(ColumnSums(m, k), Means(m, k), |m| as real);
  }

  // The total's deviation of a participant is the sum of the item deviations.
  lemma TotalDeviation(m: Matrix, k: nat, i: nat)
    requires i < |m| && Rectangular(m, k)
    ensures Deviations(Totals(m), Mean(Totals(m)))[i] == Sum(DeviationMatrix(m, k)[i])
  {
    MeanOfTotals(m, k);
    SumAdd(DeviationMatrix(m, k)[i], Means(m, k), m[i]);
  }

  lemma SpreadOfTotals(m: Matrix, k: nat)
    requires |m| > 0 && k > 0 && Rectangular(m, k)
    ensures var t, u := SpreadAround(Totals(m), Mean(Totals(m))), Sum(Totals(SquaredMatrix(DeviationMatrix(m, k))));
            t <= Mul(k as real, u) && (t == Mul(k as real, u) <==> SameDeviations(m, k))
  {
    var d := DeviationMatrix(m, k);
    var squares := Squares(Deviations(Totals(m), Mean(Totals(m))));
    var u := Totals(SquaredMatrix(d));
    var scaled := seq(|m|, i requires 0 <= i < |m| => Mul(k as real, u[i]));
    forall i | 0 <= i < |m|
      ensures squares[i] <= scaled[i]
      ensures squares[i] == scaled[i] <==> Constant(d[i])
    {
      TotalDeviation(m, k, i);
      RowBound(d[i], squares[i], scaled[i]);
    }
    SumMonotone(squares, scaled);
    SumScale(u, scaled, k as real);
    assert squares == scaled <==> SameDeviations(m, k);
  }

  lemma RowBound(row: seq<real>, square: real, scaled: real)
    requires |row| > 0
    requires square == Sq(Sum(row)) && scaled == Mul(|row| as real, Sum(Squares(row)))
    ensures square <= scaled
    ensures square == scaled <==> Constant(row)
  {
    SquareOfSum(row);
  }

  lemma SpreadsByItem(m: Matrix, k: nat)
    requires |m| > 0 && Rectangular(m, k)
    ensures Sum(Totals(SquaredMatrix(DeviationMatrix(m, k)))) == Sum(ItemSpreads(m, k))
  {
    var s := SquaredMatrix(DeviationMatrix(m, k));
    SumSwap(s, k);
    forall j | 0 <= j < k ensures ColumnSums(s, k)[j] == ItemSpreads(m, k)[j] {
      SquaredColumn(m, k, j);
    }
    assert ColumnSums(s, k) == ItemSpreads(m, k);
  }

  lemma SquaredColumn(m: Matrix, k: nat, j: nat)
    requires |m| > 0 && j < k
    ensures Column(SquaredMatrix(DeviationMatrix(m, k)), j) == Squares(Deviations(Column(m, j), Mean(Column(m, j))))
  {
    var d := DeviationMatrix(m, k);
    var left := Column(SquaredMatrix(d), j);
    var deviations := Deviations(Column(m, j), Mean(Column(m, j)));
    forall i | 0 <= i < |m| ensures left[i] == Squares(deviations)[i] {
      assert Squares(d[i])[j] == Sq(d[i][j]);
      assert d[i][j] == deviations[i];
    }
  }

  // Cauchy-Schwarz over the whole matrix: the variance of the totals is at most k times the summed item variances,
  // with equality exactly when every participant departs from all the item means by the same amount.
  lemma TotalVarianceBound(m: Matrix, k: nat)
    requires |m| > 0 && k > 0 && Rectangular(m, k)
    ensures Variance(Totals(m)) <= Mul(k as real, Sum(ItemVariances(m, k)))
    ensures Variance(Totals(m)) == Mul(k as real, Sum(ItemVariances(m, k))) <==> SameDeviations(m, k)
  {
    SpreadOfTotals(m, k);
    SpreadsByItem(m, k);
    DivideEach(ItemSpreads(m, k), ItemVariances(m, k), |m| as real);
    DivideBound(SpreadAround(Totals(m), Mean(Totals(m))), Sum(ItemSpreads(m, k)), k as real, |m| as real);
  }

  lemma DivideBound(t: real, s: real, k: real, n: real)
    requires n > 0.0
    ensures t <= Mul(k, s) <==> t / n <= Mul(k, s / n)
    ensures t == Mul(k, s) <==> t / n == Mul(k, s / n)
  {
    var x, y := t / n, s / n;
    assert t == Mul(n, x) && s == Mul(n, y);
    assert Mul(k, s) == Mul(n, Mul(k, y));
    if x < Mul(k, y) {
      MulPositive(n, Mul(k, y) - x);
    } else if x > Mul(k, y) {
      MulPositive(n, x - Mul(k, y));
    }
  }
}
