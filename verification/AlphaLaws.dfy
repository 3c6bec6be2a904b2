// What Cronbach's alpha promises: a value in [0, 1] that does not depend on row order, column order,
// item offsets, or the direction every item is scored in.
module AlphaLaws {
  import opened RealSums
  import opened Cronbach
  import opened AlphaBound

  lemma VarianceNotNegative(a: seq<real>)
    requires |a| > 0
    ensures Variance(a) >= 0.0
  {
    var squares := Squares(Deviations(a, Mean(a)));
    var zeros := seq(|a|, i requires 0 <= i < |a| => 0.0);
    forall i | 0 <= i < |a| ensures zeros[i] <= squares[i] {
      SqSign(Deviations(a, Mean(a))[i]);
    }
    SumConstant(zeros, 0.0);
    SumMonotone(zeros, squares);
    QuotientSign(Sum(squares), |a| as real);
  }

  lemma QuotientSign(x: real, n: real)
    requires n > 0.0 && x >= 0.0
    ensures x / n >= 0.0
  {
  }

  // The clamp to 1 is dead code over the reals, and alpha is 1 only for items that differ by constants.
  lemma UpperClampNeverFires(m: Matrix)
    ensures UnclampedAlpha(m) <= 1.0
    ensures Alpha(m) == 1.0 <==> Scorable(m) && SameDeviations(m, |m[0]|)
    ensures Alpha(m) == if UnclampedAlpha(m) < 0.0 then 0.0 else UnclampedAlpha(m)
  {
    UnclampedBound(m);
    ClampBelowOne(UnclampedAlpha(m), Scorable(m) && SameDeviations(m, |m[0]|));
  }

  lemma ClampBelowOne(u: real, same: bool)
    requires u <= 1.0 && (u == 1.0 <==> same)
    ensures Clamped(u) == 1.0 <==> same
    ensures Clamped(u) == if u < 0.0 then 0.0 else u
  {
  }

  lemma UnclampedBound(m: Matrix)
    ensures UnclampedAlpha(m) <= 1.0
    ensures UnclampedAlpha(m) == 1.0 <==> Scorable(m) && SameDeviations(m, |m[0]|)
  {
    if Scorable(m) {
      TotalVarianceBound(m, |m[0]|);
      VarianceNotNegative(Totals(m));
      RatioBound(|m[0]|, Sum(ItemVariances(m, |m[0]|)), Variance(Totals(m)));
    }
  }

  lemma RatioBound(k: nat, s: real, t: real)
    requires k >= 2 && t > 0.0
    requires t <= Mul(k as real, s)
    ensures Ratio(k, s, t) <= 1.0
    ensures Ratio(k, s, t) == 1.0 <==> t == Mul(k as real, s)
  {
    var kf, q := k as real, s / t;
    assert s == Mul(t, q);
    var excess := Mul(kf, q) - 1.0;
    assert Mul(t, excess) == Mul(kf, s) - t;
    if excess < 0.0 {
      MulPositive(t, -excess);
    } else if excess > 0.0 {
      MulPositive(t, excess);
    }
    RatioFromExcess(kf, q, excess);
  }

  lemma RatioFromExcess(kf: real, q: real, excess: real)
    requires kf >= 2.0 && excess == Mul(kf, q) - 1.0
    ensures (kf / (kf - 1.0)) * (1.0 - q) == 1.0 - excess / (kf - 1.0)
    ensures excess >= 0.0 ==> excess / (kf - 1.0) >= 0.0
    ensures excess / (kf - 1.0) == 0.0 <==> excess == 0.0
  {
  }

  lemma VarianceOfImages<T>(xs: seq<T>, ys: seq<T>, f: T -> real)
    requires multiset(xs) == multiset(ys) && |xs| > 0
    ensures |xs| == |ys|
    ensures Variance(Image(xs, f)) == Variance(Image(ys, f))
  {
    assert |xs| == |multiset(xs)| == |multiset(ys)| == |ys|;
    SumOfImages(xs, ys, f);
    var c := Mean(Image(xs, f));
    var g := x => Sq(f(x) - c);
    assert Squares(Deviations(Image(xs, f), c)) == Image(xs, g);
    assert Squares(Deviations(Image(ys, f), c)) == Image(ys, g);
    SumOfImages(xs, ys, g);
  }

  lemma SameShape(m: Matrix, n: Matrix)
    requires multiset(m) == multiset(n) && |m| > 0
    ensures |m| == |n|
    ensures Rectangular(m, |m[0]|) <==> Rectangular(n, |n[0]|)
    ensures Rectangular(m, |m[0]|) ==> |m[0]| == |n[0]|
  {
    assert |m| == |multiset(m)| == |multiset(n)| == |n|;
    assert forall row :: row in m <==> row in n by {
      assert forall row :: row in m <==> row in multiset(m);
      assert forall row :: row in n <==> row in multiset(n);
    }
    assert m[0] in n && n[0] in m;
    RowsDecideShape(m, |m[0]|);
    RowsDecideShape(n, |n[0]|);
  }

  lemma RowsDecideShape(m: Matrix, k: nat)
    ensures Rectangular(m, k) <==> forall row :: row in m ==> |row| == k
  {
    forall i | 0 <= i < |m| ensures m[i] in m {
    }
  }

  // The order of the participants is irrelevant.
  lemma AlphaIgnoresParticipantOrder(m: Matrix, n: Matrix)
    requires multiset(m) == multiset(n)
    ensures Alpha(m) == Alpha(n)
  {
    if |m| > 0 {
      SameShape(m, n);
      VarianceOfImages(m, n, Sum);
      assert Totals(m) == Image(m, Sum) && Totals(n) == Image(n, Sum);
      if Rectangular(m, |m[0]|) {
        SameItemVariances(m, n, |m[0]|);
      }
    } else {
      assert |multiset(m)| == 0 && |n| == |multiset(n)|;
    }
  }

  lemma SameItemVariances(m: Matrix, n: Matrix, k: nat)
    requires multiset(m) == multiset(n) && |m| == |n| > 0
    ensures ItemVariances(m, k) == ItemVariances(n, k)
  {
    forall j | 0 <= j < k ensures ItemVariances(m, k)[j] == ItemVariances(n, k)[j] {
      var f := row => Cell(row, j);
      VarianceOfImages(m, n, f);
      assert Column(m, j) == Image(m, f) && Column(n, j) == Image(n, f);
    }
  }

  function Indices(k: nat): seq<nat> {
    seq(k, j requires 0 <= j < k => j)
  }

  // Column j of n is column p[j] of m.
  predicate ColumnsPermuted(m: Matrix, n: Matrix, k: nat, p: seq<nat>) {
    && Rectangular(m, k) && Rectangular(n, k) && |m| == |n| && |p| == k
    && multiset(p) == multiset(Indices(k))
    && forall i, j :: 0 <= i < |m| && 0 <= j < k ==> n[i][j] == Cell(m[i], p[j])
  }

  // The order of the items is irrelevant.
  lemma AlphaIgnoresItemOrder(m: Matrix, n: Matrix, k: nat, p: seq<nat>)
    requires ColumnsPermuted(m, n, k, p)
    ensures Alpha(m) == Alpha(n)
  {
    if |m| > 0 {
      forall i | 0 <= i < |m| ensures Totals(m)[i] == Totals(n)[i] {
        PermutedRow(m, n, k, p, i);
      }
      assert Totals(m) == Totals(n);
      PermutedVariances(m, n, k, p);
    }
  }

  lemma PermutedRow(m: Matrix, n: Matrix, k: nat, p: seq<nat>, i: nat)
    requires ColumnsPermuted(m, n, k, p) && i < |m|
    ensures Sum(m[i]) == Sum(n[i])
  {
    var f := (j: nat) => Cell(m[i], j);
    SumOfImages(p, Indices(k), f);
    assert n[i] == Image(p, f);
    assert m[i] == Image(Indices(k), f);
  }

  lemma PermutedVariances(m: Matrix, n: Matrix, k: nat, p: seq<nat>)
    requires ColumnsPermuted(m, n, k, p) && |m| > 0
    ensures Sum(ItemVariances(m, k)) == Sum(ItemVariances(n, k))
  {
    var f := (j: nat) => Variance(Column(m, j));
    SumOfImages(p, Indices(k), f);
    forall j | 0 <= j < k ensures ItemVariances(n, k)[j] == Image(p, f)[j] {
      PermutedColumn(m, n, k, p, j);
    }
    assert ItemVariances(n, k) == Image(p, f);
    assert ItemVariances(m, k) == Image(Indices(k), f);
  }

  lemma PermutedColumn(m: Matrix, n: Matrix, k: nat, p: seq<nat>, j: nat)
    requires ColumnsPermuted(m, n, k, p) && |m| > 0 && j < k
    ensures Column(n, j) == Column(m, p[j])
  {
  }

  // b is a scaled and shifted copy of a.
  predicate AffineCopy(a: seq<real>, b: seq<real>, scale: real, shift: real) {
    |a| == |b| && forall i :: 0 <= i < |a| ==> b[i] == Mul(scale, a[i]) + shift
  }

  lemma MeanOfAffineCopy(a: seq<real>, b: seq<real>, scale: real, shift: real)
    requires AffineCopy(a, b, scale, shift) && |a| > 0
    ensures Mean(b) == Mul(scale, Mean(a)) + shift
  {
    var scaled := seq(|a|, i requires 0 <= i < |a| => Mul(scale, a[i]));
    var shifts := seq(|a|, i requires 0 <= i < |a| => shift);
    SumScale(a, scaled, scale);
    SumConstant(shifts, shift);
    SumAdd(scaled, shifts, b);
    MeanFromSum(Sum(a), Sum(b), |a| as real, scale, shift);
  }

  lemma MeanFromSum(s: real, t: real, n: real, scale: real, shift: real)
    requires n > 0.0 && t == Mul(scale, s) + Mul(n, shift)
    ensures t / n == Mul(scale, s / n) + shift
  {
    var q := s / n;
    assert s == Mul(n, q);
    assert t == (Mul(scale, q) + shift) * n;
  }

  lemma VarianceOfAffineCopy(a: seq<real>, b: seq<real>, scale: real, shift: real)
    requires AffineCopy(a, b, scale, shift) && |a| > 0
    ensures Variance(b) == Mul(Sq(scale), Variance(a))
  {
    MeanOfAffineCopy(a, b, scale, shift);
    var da, db := Deviations(a, Mean(a)), Deviations(b, Mean(b));
    forall i | 0 <= i < |a| ensures Squares(db)[i] == Mul(Sq(scale), Squares(da)[i]) {
      ScaledSquare(scale, a[i], Mean(a), shift, db[i]);
    }
    SumScale(Squares(da), Squares(db), Sq(scale));
    ScaledQuotient(Sq(scale), Sum(Squares(da)), |a| as real);
  }

  lemma ScaledSquare(scale: real, x: real, mean: real, shift: real, d: real)
    requires d == (Mul(scale, x) + shift) - (Mul(scale, mean) + shift)
    ensures Sq(d) == Mul(Sq(scale), Sq(x - mean))
  {
    assert d == scale * (x - mean);
  }

  lemma ScaledQuotient(c: real, x: real, n: real)
    requires n > 0.0
    ensures Mul(c, x) / n == Mul(c, x / n)
  {
  }

  // Item j of n is item j of m, scaled by the common factor and shifted by a constant of its own.
  predicate Rescaled(m: Matrix, n: Matrix, k: nat, scale: real, shifts: seq<real>) {
    && |m| == |n| && Rectangular(m, k) && Rectangular(n, k) && |shifts| == k
    && forall i, j :: 0 <= i < |m| && 0 <= j < k ==> n[i][j] == Mul(scale, m[i][j]) + shifts[j]
  }

  lemma AlphaIgnoresScaleAndOffsets(m: Matrix, n: Matrix, k: nat, scale: real, shifts: seq<real>)
    requires Rescaled(m, n, k, scale, shifts) && scale != 0.0
    ensures Alpha(m) == Alpha(n)
  {
    if |m| > 0 {
      SqSign(scale);
      TotalsRescaled(m, n, k, scale, shifts);
      VarianceOfAffineCopy(Totals(m), Totals(n), scale, Sum(shifts));
      forall j | 0 <= j < k ensures ItemVariances(n, k)[j] == Mul(Sq(scale), ItemVariances(m, k)[j]) {
        VarianceOfAffineCopy(Column(m, j), Column(n, j), scale, shifts[j]);
      }
      SumScale(ItemVariances(m, k), ItemVariances(n, k), Sq(scale));
      RatioScales(k, Sq(scale), Sum(ItemVariances(m, k)), Variance(Totals(m)), Sum(ItemVariances(n, k)), Variance(Totals(n)));
    }
  }

  lemma TotalsRescaled(m: Matrix, n: Matrix, k: nat, scale: real, shifts: seq<real>)
    requires Rescaled(m, n, k, scale, shifts)
    ensures AffineCopy(Totals(m), Totals(n), scale, Sum(shifts))
  {
    forall i | 0 <= i < |m| ensures Totals(n)[i] == Mul(scale, Totals(m)[i]) + Sum(shifts) {
      var scaled := seq(k, j requires 0 <= j < k => Mul(scale, m[i][j]));
      SumScale(m[i], scaled, scale);
      SumAdd(scaled, shifts, n[i]);
    }
  }

  lemma RatioScales(k: nat, c: real, s: real, t: real, s1: real, t1: real)
    requires c > 0.0 && s1 == Mul(c, s) && t1 == Mul(c, t)
    ensures t1 == 0.0 <==> t == 0.0
    ensures k >= 2 && t != 0.0 ==> Ratio(k, s1, t1) == Ratio(k, s, t)
  {
    CancelMul(c, t, 0.0);
    if t != 0.0 {
      QuotientScales(c, s, t);
    }
  }

  lemma QuotientScales(c: real, s: real, t: real)
    requires c > 0.0 && t != 0.0 && Mul(c, t) != 0.0
    ensures Mul(c, s) / Mul(c, t) == s / t
  {
    var q := s / t;
    assert s == q * t;
    assert Mul(c, s) == q * Mul(c, t);
  }

  function ReverseScore(raw: int, points: int): (r: int)
    ensures points >= 2 ==> 1 <= r <= points
    ensures points >= 2 && 1 <= raw <= points ==> r == points + 1 - raw
  {
    if points < 2 then raw
    else
      var clamped := if raw < 1 then 1 else if raw > points then points else raw;
      points + 1 - clamped
  }

  // Reversing twice clamps, and is the identity on answers the scale allows.
  lemma ReverseTwice(raw: int, points: int)
    ensures points >= 2 ==> ReverseScore(ReverseScore(raw, points), points) == (if raw < 1 then 1 else if raw > points then points else raw)
    ensures points < 2 ==> ReverseScore(ReverseScore(raw, points), points) == raw
  {
  }

  function Scores(answers: seq<seq<int>>): (m: Matrix)
    ensures |m| == |answers|
    ensures forall i :: 0 <= i < |m| ==> |m[i]| == |answers[i]|
    ensures forall i, j :: 0 <= i < |m| && 0 <= j < |m[i]| ==> m[i][j] == answers[i][j] as real
  {
    seq(|answers|, i requires 0 <= i < |answers| =>
      seq(|answers[i]|, j requires 0 <= j < |answers[i]| => answers[i][j] as real))
  }

  // Scoring every item in the opposite direction changes nothing, on answers within the scale.
  lemma AlphaIgnoresDirection(answers: seq<seq<int>>, reversed: seq<seq<int>>, points: int)
    requires points >= 2 && |answers| == |reversed|
    requires forall i :: 0 <= i < |answers| ==> |answers[i]| == |reversed[i]|
    requires forall i, j :: 0 <= i < |answers| && 0 <= j < |answers[i]| ==>
      1 <= answers[i][j] <= points && reversed[i][j] == ReverseScore(answers[i][j], points)
    ensures Alpha(Scores(answers)) == Alpha(Scores(reversed))
  {
    var m, n := Scores(answers), Scores(reversed);
    if |m| > 0 {
      var k := |m[0]|;
      if Rectangular(m, k) {
        var shifts := seq(k, j requires 0 <= j < k => (points + 1) as real);
        forall i, j | 0 <= i < |m| && 0 <= j < k ensures n[i][j] == Mul(-1.0, m[i][j]) + shifts[j] {
        }
        AlphaIgnoresScaleAndOffsets(m, n, k, -1.0, shifts);
      } else {
        assert !Rectangular(n, k);
      }
    }
  }
}
