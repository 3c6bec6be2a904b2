// internal/services/cronbach.go, over exact arithmetic.
module Cronbach {
  import opened RealSums

  // One row per participant, one column per item.
  type Matrix = seq<seq<real>>

  predicate Rectangular(m: Matrix, k: nat) {
    forall i :: 0 <= i < |m| ==> |m[i]| == k
  }

  // A missing cell counts as 0.0; a rectangular matrix has none.
  function Cell(row: seq<real>, j: nat): real {
    if j < |row| then row[j] else 0.0
  }

  function Column(m: Matrix, j: nat): seq<real> {
    seq(|m|, i requires 0 <= i < |m| => Cell(m[i], j))
  }

  function Totals(m: Matrix): seq<real> {
    Image(m, Sum)
  }

  function Mean(a: seq<real>): real
    requires |a| > 0
  {
    Sum(a) / |a| as real
  }

  function Deviations(a: seq<real>, center: real): seq<real> {
    seq(|a|, i requires 0 <= i < |a| => a[i] - center)
  }

  function SpreadAround(a: seq<real>, center: real): real {
    Sum(Squares(Deviations(a, center)))
  }

  // Population variance.
  function Variance(a: seq<real>): real
    requires |a| > 0
  {
    SpreadAround(a, Mean(a)) / |a| as real
  }

  function ItemVariances(m: Matrix, k: nat): seq<real>
    requires |m| > 0
  {
    seq(k, j requires 0 <= j < k => Variance(Column(m, j)))
  }

  predicate Scorable(m: Matrix) {
    |m| > 0 && |m[0]| >= 2 && Rectangular(m, |m[0]|) && Variance(Totals(m)) != 0.0
  }

  function Ratio(k: nat, itemVariance: real, totalVariance: real): real
    requires k >= 2 && totalVariance != 0.0
  {
    (k as real / (k as real - 1.0)) * (1.0 - itemVariance / totalVariance)
  }

  // The ratio before it is clamped, 0 where there is none.
  function UnclampedAlpha(m: Matrix): real {
    if Scorable(m) then Ratio(|m[0]|, Sum(ItemVariances(m, |m[0]|)), Variance(Totals(m))) else 0.0
  }

  function Clamped(alpha: real): real {
    if alpha < 0.0 then 0.0 else if alpha > 1.0 then 1.0 else alpha
  }

  function Alpha(m: Matrix): real {
    if Scorable(m) then Clamped(UnclampedAlpha(m)) else 0.0
  }

  method CronbachAlpha(matrix: Matrix) returns (alpha: real)
    ensures alpha == Alpha(matrix)
  {
    var n := |matrix|;
    if n == 0 {
      return 0.0;
    }
    var k := |matrix[0]|;
    if k < 2 {
      return 0.0;
    }
    var totals := new real[n](_ => 0.0);
    var means := new real[k](_ => 0.0);
    var ragged := AccumulateRows(matrix, k, means, totals);
    if ragged {
      return 0.0;
    }
    assert totals[..] == Totals(matrix);
    var totalVar, itemVars := SecondPass(matrix, k, means, totals);
    if totalVar == 0.0 {
      return 0.0;
    }
    var sumItemVars := SumLoop(itemVars);
    alpha := Ratio(k, sumItemVars, totalVar);
    if alpha < 0.0 {
      return 0.0;
    }
    if alpha > 1.0 {
      return 1.0;
    }
  }

  // The first pass: column sums and row sums, given up at the first row of another length.
  method AccumulateRows(matrix: Matrix, k: nat, means: array<real>, totals: array<real>) returns (ragged: bool)
    requires means.Length == k && totals.Length == |matrix| && means != totals
    requires forall j :: 0 <= j < k ==> means[j] == 0.0
    requires forall i :: 0 <= i < |matrix| ==> totals[i] == 0.0
    modifies means, totals
    ensures ragged <==> !Rectangular(matrix, k)
    ensures !ragged ==> forall i :: 0 <= i < |matrix| ==> totals[i] == Sum(matrix[i])
    ensures !ragged ==> AreColumnSums(means[..], matrix)
  {
    forall j | 0 <= j < k ensures Sum(Column(matrix[..0], j)) == 0.0 {
      assert Column(matrix[..0], j) == [];
    }
    for i := 0 to |matrix|
      invariant forall t :: 0 <= t < i ==> |matrix[t]| == k
      invariant AreColumnSums(means[..], matrix[..i])
      invariant forall t :: 0 <= t < i ==> totals[t] == Sum(matrix[t])
      invariant forall t :: i <= t < |matrix| ==> totals[t] == 0.0
    {
      var row := matrix[i];
      if |row| != k {
        return true;
      }
      ghost var before := means[..];
      AddRow(row, i, means, totals);
      ColumnSumsStep(matrix, i, before, means[..]);
    }
    assert matrix[..|matrix|] == matrix;
    return false;
  }

  method AddRow(row: seq<real>, i: nat, means: array<real>, totals: array<real>)
    requires means.Length == |row| && i < totals.Length && means != totals && totals[i] == 0.0
    modifies means, totals
    ensures forall t :: 0 <= t < |row| ==> means[t] == old(means[t]) + row[t]
    ensures totals[i] == Sum(row)
    ensures forall t :: 0 <= t < totals.Length && t != i ==> totals[t] == old(totals[t])
  {
    for j := 0 to |row|
      invariant forall t :: 0 <= t < j ==> means[t] == old(means[t]) + row[t]
      invariant forall t :: j <= t < |row| ==> means[t] == old(means[t])
      invariant totals[i] == Sum(row[..j])
      invariant forall t :: 0 <= t < totals.Length && t != i ==> totals[t] == old(totals[t])
    {
      means[j] := means[j] + row[j];
      totals[i] := totals[i] + row[j];
      SumStep(row, j);
    }
    assert row[..|row|] == row;
  }

  predicate AreColumnSums(sums: seq<real>, m: Matrix) {
    forall j {:trigger Column(m, j)} :: 0 <= j < |sums| ==> sums[j] == Sum(Column(m, j))
  }

  lemma ColumnSumsStep(m: Matrix, i: nat, before: seq<real>, after: seq<real>)
    requires i < |m| && |before| == |after| == |m[i]|
    requires AreColumnSums(before, m[..i])
    requires forall t :: 0 <= t < |after| ==> after[t] == before[t] + m[i][t]
    ensures AreColumnSums(after, m[..i + 1])
  {
    forall t | 0 <= t < |after| ensures after[t] == Sum(Column(m[..i + 1], t)) {
      ColumnStep(m, i, t);
    }
  }

  lemma ColumnStep(m: Matrix, i: nat, j: nat)
    requires i < |m| && j < |m[i]|
    ensures Sum(Column(m[..i + 1], j)) == Sum(Column(m[..i], j)) + m[i][j]
  {
    assert Column(m[..i + 1], j)[..i] == Column(m[..i], j);
  }

  // The second pass: deviations from the means, per item and for the totals.
  method SecondPass(matrix: Matrix, k: nat, means: array<real>, totals: array<real>)
      returns (totalVar: real, itemVars: seq<real>)
    requires |matrix| > 0 && means.Length == k && Rectangular(matrix, k)
    requires totals[..] == Totals(matrix)
    requires AreColumnSums(means[..], matrix)
    requires means != totals
    modifies means
    ensures totalVar == Variance(Totals(matrix))
    ensures itemVars == ItemVariances(matrix, k)
  {
    DivideAll(means, |matrix|, matrix);
    itemVars := EachItemVariance(matrix, k, means);
    var totalMean := SumLoop(totals[..]);
    totalMean := totalMean / |matrix| as real;
    totalVar := VarianceAround(totals[..], totalMean);
  }

  method EachItemVariance(matrix: Matrix, k: nat, means: array<real>) returns (itemVars: seq<real>)
    requires |matrix| > 0 && means.Length == k
    requires forall t {:trigger Column(matrix, t)} :: 0 <= t < k ==> means[t] == Mean(Column(matrix, t))
    ensures itemVars == ItemVariances(matrix, k)
  {
    itemVars := [];
    for j := 0 to k
      invariant |itemVars| == j
      invariant forall t {:trigger Column(matrix, t)} :: 0 <= t < j ==> itemVars[t] == Variance(Column(matrix, t))
    {
      var itemVar := VarianceAround(Column(matrix, j), means[j]);
      itemVars := itemVars + [itemVar];
    }
  }

  method DivideAll(means: array<real>, n: nat, ghost matrix: Matrix)
    requires n == |matrix| > 0 && AreColumnSums(means[..], matrix)
    modifies means
    ensures forall t {:trigger Column(matrix, t)} :: 0 <= t < means.Length ==> means[t] == Mean(Column(matrix, t))
  {
    for j := 0 to means.Length
      invariant forall t :: 0 <= t < j ==> means[t] == old(means[t]) / n as real
      invariant forall t :: j <= t < means.Length ==> means[t] == old(means[t])
    {
      means[j] := means[j] / n as real;
    }
  }

  method SumLoop(values: seq<real>) returns (sum: real)
    ensures sum == Sum(values)
  {
    sum := 0.0;
    for i := 0 to |values|
      invariant sum == Sum(values[..i])
    {
      sum := sum + values[i];
      SumStep(values, i);
    }
    assert values[..|values|] == values;
  }

  method VarianceAround(values: seq<real>, mean: real) returns (variance: real)
    requires |values| > 0 && mean == Mean(values)
    ensures variance == Variance(values)
  {
    var sum := SpreadLoop(values, mean);
    variance := sum / |values| as real;
  }

  method SpreadLoop(values: seq<real>, mean: real) returns (sum: real)
    ensures sum == SpreadAround(values, mean)
  {
    sum := 0.0;
    ghost var squares := Squares(Deviations(values, mean));
    for i := 0 to |values|
      invariant sum == Sum(squares[..i])
    {
      var d := values[i] - mean;
      sum := sum + Sq(d);
      SumStep(squares, i);
    }
    assert squares[..|values|] == squares;
  }
}
