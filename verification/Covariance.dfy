// What the value of Cronbach's alpha is, without its formula: how much of the variance of the totals comes from items
// that vary together.
module Covariance {
  import opened RealSums
  import opened Cronbach
  import opened AlphaBound
  import AlphaLaws

  function Products(a: seq<real>, b: seq<real>): seq<real>
    requires |a| == |b|
  {
    seq(|a|, i requires 0 <= i < |a| => Mul(a[i], b[i]))
  }

  // The square of the number of participants times the population covariance, from the raw answers: no mean is taken.
  function Comoment(a: seq<real>, b: seq<real>): real
    requires |a| == |b|
  {
    Mul(|a| as real, Sum(Products(a, b))) - Mul(Sum(a), Sum(b))
  }

  function Covariance(a: seq<real>, b: seq<real>): real
    requires |a| == |b| > 0
  {
    Comoment(a, b) / Sq(|a| as real)
  }

  // The covariances of item j with every item, and with every other item.
  function CovariancesOf(m: Matrix, k: nat, j: nat): seq<real>
    requires |m| > 0
  {
    seq(k, i requires 0 <= i < k => Covariance(Column(m, i), Column(m, j)))
  }

  function OtherCovariancesOf(m: Matrix, k: nat, j: nat): seq<real>
    requires |m| > 0
  {
    seq(k, i requires 0 <= i < k => if i == j then 0.0 else Covariance(Column(m, i), Column(m, j)))
  }

  // The covariances of all pairs of different items, each pair in both orders.
  function PairCovariances(m: Matrix, k: nat): real
    requires |m| > 0
  {
    Sum(seq(k, j requires 0 <= j < k => Sum(OtherCovariancesOf(m, k, j))))
  }

  // ----- the variance is the covariance with itself -----

  lemma SpreadExpanded(a: seq<real>, c: real, f: real)
    requires f == -2.0 * c
    ensures SpreadAround(a, c) == Sum(Products(a, a)) + (Mul(f, Sum(a)) + Mul(|a| as real, Sq(c)))
  {
    var squares := Squares(Deviations(a, c));
    forall i | 0 <= i < |a| ensures squares[i] == Products(a, a)[i] + (Mul(f, a[i]) + Sq(c)) {
      SquareExpanded(a[i], c, f);
    }
    SumExpanded(squares, Products(a, a), a, f, Sq(c));
  }

  lemma SumExpanded(squares: seq<real>, products: seq<real>, a: seq<real>, f: real, v: real)
    requires |squares| == |products| == |a|
    requires forall i :: 0 <= i < |a| ==> squares[i] == products[i] + (Mul(f, a[i]) + v)
    ensures Sum(squares) == Sum(products) + (Mul(f, Sum(a)) + Mul(|a| as real, v))
  {
    var linear := seq(|a|, i requires 0 <= i < |a| => Mul(f, a[i]));
    var constant := seq(|a|, i requires 0 <= i < |a| => v);
    SumScale(a, linear, f);
    SumConstant(constant, v);
    SumOfThree(products, linear, constant, squares);
  }

  lemma SumOfThree(a: seq<real>, b: seq<real>, c: seq<real>, d: seq<real>)
    requires |a| == |b| == |c| == |d|
    requires forall i :: 0 <= i < |d| ==> d[i] == a[i] + (b[i] + c[i])
    ensures Sum(d) == Sum(a) + (Sum(b) + Sum(c))
  {
    var rest := seq(|a|, i requires 0 <= i < |a| => b[i] + c[i]);
    SumAdd(b, c, rest);
    SumAdd(a, rest, d);
  }

  lemma SquareExpanded(x: real, c: real, f: real)
    requires f == -2.0 * c
    ensures Sq(x - c) == Mul(x, x) + (Mul(f, x) + Sq(c))
  {
  }

  lemma VarianceIsCovariance(a: seq<real>)
    requires |a| > 0
    ensures Variance(a) == Covariance(a, a)
  {
    var f := -2.0 * Mean(a);
    SpreadExpanded(a, Mean(a), f);
    MomentsOfMean(|a| as real, Sum(a), Sum(Products(a, a)), Mean(a), f, SpreadAround(a, Mean(a)));
  }

  lemma MomentsOfMean(n: real, s: real, q: real, c: real, f: real, spread: real)
    requires n > 0.0 && c == s / n && f == -2.0 * c && spread == q + (Mul(f, s) + Mul(n, Sq(c)))
    ensures Sq(n) != 0.0 && spread / n == (Mul(n, q) - Mul(s, s)) / Sq(n)
  {
    assert s == Mul(n, c);
    assert Mul(n, spread) == Mul(n, q) - Mul(s, s);
    var v := spread / n;
    assert spread == Mul(n, v);
    assert Mul(n, spread) == Mul(Sq(n), v);
    SqSign(n);
    QuotientIs(Mul(n, q) - Mul(s, s), Sq(n), v);
  }

  lemma QuotientIs(x: real, y: real, v: real)
    requires y != 0.0 && x == Mul(y, v)
    ensures x / y == v
  {
  }

  // ----- the covariance of sums is the sum of covariances -----

  // Every answer of a participant times that participant's b.
  function Weighted(m: Matrix, k: nat, b: seq<real>): (w: Matrix)
    requires |b| == |m| && Rectangular(m, k)
    ensures |w| == |m| && Rectangular(w, k)
    ensures forall i, j :: 0 <= i < |m| && 0 <= j < k ==> w[i][j] == Mul(b[i], m[i][j])
  {
    seq(|m|, i requires 0 <= i < |m| => seq(k, j requires 0 <= j < k => Mul(b[i], m[i][j])))
  }

  lemma WeightedTotals(m: Matrix, k: nat, b: seq<real>)
    requires |b| == |m| && Rectangular(m, k)
    ensures Totals(Weighted(m, k, b)) == Products(Totals(m), b)
  {
    var w := Weighted(m, k, b);
    forall i | 0 <= i < |m| ensures Totals(w)[i] == Products(Totals(m), b)[i] {
      SumScale(m[i], w[i], b[i]);
      MulCommutes(b[i], Sum(m[i]));
    }
  }

  lemma WeightedColumn(m: Matrix, k: nat, b: seq<real>, j: nat)
    requires |b| == |m| && Rectangular(m, k) && j < k
    ensures Column(Weighted(m, k, b), j) == Products(Column(m, j), b)
  {
    var left, right := Column(Weighted(m, k, b), j), Products(Column(m, j), b);
    forall i | 0 <= i < |m| ensures left[i] == right[i] {
      MulCommutes(b[i], m[i][j]);
    }
  }

  lemma ProductsByItem(m: Matrix, k: nat, b: seq<real>)
    requires |b| == |m| && Rectangular(m, k)
    ensures Sum(Products(Totals(m), b)) == Sum(seq(k, j requires 0 <= j < k => Sum(Products(Column(m, j), b))))
  {
    var w := Weighted(m, k, b);
    var sums := seq(k, j requires 0 <= j < k => Sum(Products(Column(m, j), b)));
    WeightedTotals(m, k, b);
    SumSwap(w, k);
    forall j | 0 <= j < k ensures ColumnSums(w, k)[j] == sums[j] {
      WeightedColumn(m, k, b, j);
    }
    assert ColumnSums(w, k) == sums;
  }

  lemma ComomentOfTotals(m: Matrix, k: nat, b: seq<real>)
    requires |b| == |m| && Rectangular(m, k)
    ensures Comoment(Totals(m), b) == Sum(seq(k, j requires 0 <= j < k => Comoment(Column(m, j), b)))
  {
    var n, sb := |m| as real, Sum(b);
    var products := seq(k, j requires 0 <= j < k => Sum(Products(Column(m, j), b)));
    var scaled := seq(k, j requires 0 <= j < k => Mul(n, products[j]));
    var crossed := seq(k, j requires 0 <= j < k => Mul(sb, ColumnSums(m, k)[j]));
    var comoments := seq(k, j requires 0 <= j < k => Comoment(Column(m, j), b));
    ProductsByItem(m, k, b);
    SumSwap(m, k);
    SumScale(products, scaled, n);
    SumScale(ColumnSums(m, k), crossed, sb);
    forall j | 0 <= j < k ensures scaled[j] == comoments[j] + crossed[j] {
      MulCommutes(sb, Sum(Column(m, j)));
    }
    SumAdd(comoments, crossed, scaled);
    MulCommutes(sb, Sum(Totals(m)));
  }

  lemma MulCommutes(x: real, y: real)
    ensures Mul(x, y) == Mul(y, x)
  {
  }

  lemma CovarianceOfTotals(m: Matrix, k: nat, b: seq<real>)
    requires |b| == |m| > 0 && Rectangular(m, k)
    ensures Covariance(Totals(m), b) == Sum(seq(k, j requires 0 <= j < k => Covariance(Column(m, j), b)))
  {
    SqSign(|m| as real);
    ComomentOfTotals(m, k, b);
    DivideEach(seq(k, j requires 0 <= j < k => Comoment(Column(m, j), b)),
               seq(k, j requires 0 <= j < k => Covariance(Column(m, j), b)), Sq(|m| as real));
  }

  lemma CovarianceCommutes(a: seq<real>, b: seq<real>)
    requires |a| == |b| > 0
    ensures Covariance(a, b) == Covariance(b, a)
  {
    assert Products(a, b) == Products(b, a);
    MulCommutes(Sum(a), Sum(b));
  }

  lemma {:induction false} OnlyTerm(a: seq<real>, j: nat)
    requires j < |a|
    requires forall i :: 0 <= i < |a| && i != j ==> a[i] == 0.0
    ensures Sum(a) == a[j]
  {
    var n := |a| - 1;
    if j == n {
      SumConstant(a[..n], 0.0);
    } else {
      OnlyTerm(a[..n], j);
    }
  }

  lemma OwnCovarianceApart(m: Matrix, k: nat, j: nat)
    requires |m| > 0 && j < k
    ensures Sum(CovariancesOf(m, k, j)) == Sum(OtherCovariancesOf(m, k, j)) + Variance(Column(m, j))
  {
    VarianceIsCovariance(Column(m, j));
    var own := seq(k, i requires 0 <= i < k => if i == j then Covariance(Column(m, j), Column(m, j)) else 0.0);
    OnlyTerm(own, j);
    SumAdd(OtherCovariancesOf(m, k, j), own, CovariancesOf(m, k, j));
  }

  // What the variance of the totals has over the variances of the items is the covariances between them.
  lemma TotalVarianceByPairs(m: Matrix, k: nat)
    requires |m| > 0 && Rectangular(m, k)
    ensures Variance(Totals(m)) == Sum(ItemVariances(m, k)) + PairCovariances(m, k)
  {
    var t := Totals(m);
    var others := seq(k, j requires 0 <= j < k => Sum(OtherCovariancesOf(m, k, j)));
    var withTotals := seq(k, j requires 0 <= j < k => Covariance(Column(m, j), t));
    VarianceIsCovariance(t);
    CovarianceOfTotals(m, k, t);
    forall j | 0 <= j < k ensures withTotals[j] == others[j] + ItemVariances(m, k)[j] {
      CovarianceCommutes(Column(m, j), t);
      CovarianceOfTotals(m, k, Column(m, j));
      assert seq(k, i requires 0 <= i < k => Covariance(Column(m, i), Column(m, j))) == CovariancesOf(m, k, j);
      OwnCovarianceApart(m, k, j);
    }
    SumAdd(others, ItemVariances(m, k), withTotals);
  }

  // ----- the value of alpha -----

  lemma RatioOfPairs(k: nat, items: real, total: real, pairs: real)
    requires k >= 2 && total != 0.0 && total == items + pairs
    ensures Mul(k as real - 1.0, Mul(total, Ratio(k, items, total))) == Mul(k as real, pairs)
  {
    var kf, q := k as real, items / total;
    assert items == Mul(total, q);
    var factor := kf / (kf - 1.0);
    assert Mul(kf - 1.0, factor) == kf;
    assert Mul(total, 1.0 - q) == pairs;
    RegroupFour(kf - 1.0, total, factor, 1.0 - q);
  }

  lemma RegroupFour(a: real, b: real, c: real, d: real)
    ensures Mul(a, Mul(b, c * d)) == Mul(Mul(a, c), Mul(b, d))
  {
  }

  // Of at least two items with totals that vary, alpha is k / (k - 1) times the share of the totals' variance that comes
  // from the covariances of different items, and 0 if they do not sum to more than 0.
  lemma AlphaByPairs(m: Matrix, k: nat)
    requires |m| > 0 && k >= 2 && Rectangular(m, k) && Covariance(Totals(m), Totals(m)) != 0.0
    ensures Mul(k as real - 1.0, Mul(Covariance(Totals(m), Totals(m)), UnclampedAlpha(m))) == Mul(k as real, PairCovariances(m, k))
    ensures PairCovariances(m, k) >= 0.0 ==> Alpha(m) == UnclampedAlpha(m)
    ensures PairCovariances(m, k) <= 0.0 ==> Alpha(m) == 0.0
  {
    VarianceIsCovariance(Totals(m));
    AlphaLaws.VarianceNotNegative(Totals(m));
    UnclampedByPairs(m, k);
    ClampedBySign(m, k as real, Variance(Totals(m)), PairCovariances(m, k));
  }

  lemma UnclampedByPairs(m: Matrix, k: nat)
    requires |m| > 0 && k >= 2 && Rectangular(m, k) && Variance(Totals(m)) != 0.0
    ensures Mul(k as real - 1.0, Mul(Variance(Totals(m)), UnclampedAlpha(m))) == Mul(k as real, PairCovariances(m, k))
  {
    TotalVarianceByPairs(m, k);
    RatioOfPairs(k, Sum(ItemVariances(m, k)), Variance(Totals(m)), PairCovariances(m, k));
  }

  lemma ClampedBySign(m: Matrix, kf: real, total: real, pairs: real)
    requires kf >= 2.0 && total > 0.0 && Mul(kf - 1.0, Mul(total, UnclampedAlpha(m))) == Mul(kf, pairs)
    ensures pairs >= 0.0 ==> Alpha(m) == UnclampedAlpha(m)
    ensures pairs <= 0.0 ==> Alpha(m) == 0.0
  {
    SignOfAlpha(kf, total, UnclampedAlpha(m), pairs);
    AlphaLaws.UpperClampNeverFires(m);
  }

  lemma SignOfAlpha(k: real, total: real, alpha: real, pairs: real)
    requires k >= 2.0 && total > 0.0 && Mul(k - 1.0, Mul(total, alpha)) == Mul(k, pairs)
    ensures pairs >= 0.0 ==> alpha >= 0.0
    ensures pairs <= 0.0 ==> alpha <= 0.0
  {
    if alpha > 0.0 {
      MulPositive(total, alpha);
      MulPositive(k - 1.0, Mul(total, alpha));
    } else if alpha < 0.0 {
      MulPositive(total, -alpha);
      MulPositive(k - 1.0, Mul(total, -alpha));
    }
    if pairs > 0.0 {
      MulPositive(k, pairs);
    } else if pairs < 0.0 {
      MulPositive(k, -pairs);
    }
  }

  // Of two items alpha is four times their covariance over the variance of the totals.
  lemma AlphaOfTwoItems(m: Matrix)
    requires |m| > 0 && Rectangular(m, 2) && Covariance(Totals(m), Totals(m)) != 0.0
    ensures Mul(Covariance(Totals(m), Totals(m)), UnclampedAlpha(m)) == 4.0 * Covariance(Column(m, 0), Column(m, 1))
  {
    AlphaByPairs(m, 2);
    CovarianceCommutes(Column(m, 0), Column(m, 1));
    SumOfTwo(OtherCovariancesOf(m, 2, 0));
    SumOfTwo(OtherCovariancesOf(m, 2, 1));
    SumOfTwo(seq(2, j requires 0 <= j < 2 => Sum(OtherCovariancesOf(m, 2, j))));
  }

  lemma SumOfTwo(a: seq<real>)
    requires |a| == 2
    ensures Sum(a) == a[0] + a[1]
  {
    assert a[..1][..0] == [];
  }

  // Nothing else has an alpha: no participant, fewer than two items, a missing answer, totals that do not vary.
  lemma NoAlpha(m: Matrix)
    requires |m| == 0 || |m[0]| < 2 || (exists i :: 0 <= i < |m| && |m[i]| != |m[0]|) || Covariance(Totals(m), Totals(m)) == 0.0
    ensures Alpha(m) == 0.0
  {
    if |m| > 0 {
      VarianceIsCovariance(Totals(m));
    }
  }
}
