// Finite sums of reals, as the loops of the reliability code accumulate them (left to right).
module RealSums {

  function Sum(a: seq<real>): real {
    if |a| == 0 then 0.0 else Sum(a[..|a| - 1]) + a[|a| - 1]
  }

  // A product under a name of its own: the solver then reasons about it by the lemmas below.
  function Mul(x: real, y: real): real {
    x * y
  }

  function Sq(x: real): real {
    Mul(x, x)
  }

  lemma PositiveProduct(x: real, y: real)
    requires x > 0.0 && y > 0.0
    ensures x * y > 0.0
  {
  }

  lemma MulPositive(x: real, y: real)
    requires x > 0.0 && y > 0.0
    ensures Mul(x, y) > 0.0
  {
    PositiveProduct(x, y);
  }

  lemma SqSign(x: real)
    ensures Sq(x) >= 0.0
    ensures Sq(x) == 0.0 <==> x == 0.0
  {
    if x > 0.0 {
      MulPositive(x, x);
    } else if x < 0.0 {
      MulPositive(-x, -x);
    }
  }

  function Squares(a: seq<real>): seq<real> {
    seq(|a|, i requires 0 <= i < |a| => Sq(a[i]))
  }

  // One more round of an accumulating loop.
  lemma SumStep(a: seq<real>, n: nat)
    requires n < |a|
    ensures Sum(a[..n + 1]) == Sum(a[..n]) + a[n]
  {
    assert a[..n + 1][..n] == a[..n];
  }

  lemma {:induction false} SumAdd(a: seq<real>, b: seq<real>, c: seq<real>)
    requires |a| == |b| == |c|
    requires forall i :: 0 <= i < |c| ==> c[i] == a[i] + b[i]
    ensures Sum(c) == Sum(a) + Sum(b)
  {
    if |a| == 0 {
    } else {
      var n := |a| - 1;
      SumAdd(a[..n], b[..n], c[..n]);
    }
  }

  lemma {:induction false} SumScale(a: seq<real>, c: seq<real>, s: real)
    requires |a| == |c|
    requires forall i :: 0 <= i < |c| ==> c[i] == Mul(s, a[i])
    ensures Sum(c) == Mul(s, Sum(a))
  {
    if |a| == 0 {
    } else {
      var n := |a| - 1;
      SumScale(a[..n], c[..n], s);
      MulDistributes(s, Sum(a[..n]), a[n]);
    }
  }

  lemma MulDistributes(s: real, x: real, y: real)
    ensures Mul(s, x + y) == Mul(s, x) + Mul(s, y)
  {
  }

  lemma {:induction false} SumConstant(a: seq<real>, c: real)
    requires forall i :: 0 <= i < |a| ==> a[i] == c
    ensures Sum(a) == Mul(|a| as real, c)
  {
    if |a| == 0 {
    } else {
      SumConstant(a[..|a| - 1], c);
    }
  }

  // Termwise comparison; the sums agree only if every pair of terms agrees.
  lemma {:induction false} SumMonotone(a: seq<real>, b: seq<real>)
    requires |a| == |b|
    requires forall i :: 0 <= i < |a| ==> a[i] <= b[i]
    ensures Sum(a) <= Sum(b)
    ensures Sum(a) == Sum(b) <==> a == b
  {
    if |a| == 0 {
    } else {
      var n := |a| - 1;
      SumMonotone(a[..n], b[..n]);
      assert a == a[..n] + [a[n]] && b == b[..n] + [b[n]];
      if Sum(a) == Sum(b) {
        assert a[..n] == b[..n];
      }
    }
  }

  lemma {:induction false} SumAppend(a: seq<real>, b: seq<real>)
    ensures Sum(a + b) == Sum(a) + Sum(b)
  {
    if |b| == 0 {
      assert a + b == a;
    } else {
      var n := |b| - 1;
      assert (a + b)[..|a + b| - 1] == a + b[..n];
      SumAppend(a, b[..n]);
    }
  }

  function Image<T>(xs: seq<T>, f: T -> real): seq<real> {
    seq(|xs|, i requires 0 <= i < |xs| => f(xs[i]))
  }

  // A sum over the terms f(x) does not depend on the order of the x.
  lemma {:induction false} SumOfImages<T>(xs: seq<T>, ys: seq<T>, f: T -> real)
    requires multiset(xs) == multiset(ys)
    ensures Sum(Image(xs, f)) == Sum(Image(ys, f))
    decreases |xs|
  {
    SameSize(xs, ys);
    if |xs| == 0 {
    } else {
      var n := |xs| - 1;
      var k := RemoveLast(xs, ys);
      SumOfImages(xs[..n], ys[..k] + ys[k + 1..], f);
      assert Image(xs, f)[..n] == Image(xs[..n], f);
      ImageWithout(ys, k, f);
    }
  }

  lemma SameSize<T>(xs: seq<T>, ys: seq<T>)
    requires multiset(xs) == multiset(ys)
    ensures |xs| == |ys|
  {
    assert |xs| == |multiset(xs)| == |multiset(ys)| == |ys|;
  }

  lemma RemoveLast<T>(xs: seq<T>, ys: seq<T>) returns (k: nat)
    requires multiset(xs) == multiset(ys) && |xs| > 0
    ensures k < |ys| && ys[k] == xs[|xs| - 1]
    ensures multiset(xs[..|xs| - 1]) == multiset(ys[..k] + ys[k + 1..])
  {
    var n := |xs| - 1;
    assert xs == xs[..n] + [xs[n]];
    assert xs[n] in multiset(ys);
    k :| 0 <= k < |ys| && ys[k] == xs[n];
    assert ys == ys[..k] + [ys[k]] + ys[k + 1..];
    assert multiset(ys[..k] + ys[k + 1..]) == multiset(ys) - multiset{ys[k]};
    assert multiset(xs[..n]) == multiset(xs) - multiset{xs[n]};
  }

  lemma ImageWithout<T>(ys: seq<T>, k: nat, f: T -> real)
    requires k < |ys|
    ensures Sum(Image(ys, f)) == Sum(Image(ys[..k] + ys[k + 1..], f)) + f(ys[k])
  {
    var before, here, after := Image(ys[..k], f), [f(ys[k])], Image(ys[k + 1..], f);
    assert Image(ys, f) == (before + here) + after;
    assert Image(ys[..k] + ys[k + 1..], f) == before + after;
    SumAppend(before + here, after);
    SumAppend(before, here);
    SumAppend(before, after);
    assert here[..0] == [];
  }

  lemma SquaresPrefix(a: seq<real>, n: nat)
    requires n < |a|
    ensures Sum(Squares(a[..n + 1])) == Sum(Squares(a[..n])) + Sq(a[n])
  {
    assert Squares(a[..n + 1])[..n] == Squares(a[..n]);
  }

  predicate Constant(a: seq<real>) {
    forall i :: 0 <= i < |a| ==> a[i] == a[0]
  }

  // |a| * (sum of squares) - (square of the sum).
  function Gap(k: real, s: real, q: real): real {
    Mul(k, q) - Sq(s)
  }

  // It is never negative, and zero only for a constant sequence.
  lemma {:induction false} SquareOfSum(a: seq<real>)
    requires |a| > 0
    ensures Gap(|a| as real, Sum(a), Sum(Squares(a))) >= 0.0
    ensures Gap(|a| as real, Sum(a), Sum(Squares(a))) == 0.0 <==> Constant(a)
  {
    var n := |a| - 1;
    var b := a[..n];
    assert a[..n + 1] == a;
    if n == 0 {
      GapOfOne(a);
    } else {
      SquareOfSum(b);
      SquaresPrefix(a, n);
      ConstantStep(a);
      GapStep(n as real, Sum(b), Sum(Squares(b)), a[n], |a| as real, Sum(a), Sum(Squares(a)));
    }
  }

  lemma GapOfOne(a: seq<real>)
    requires |a| == 1
    ensures Gap(|a| as real, Sum(a), Sum(Squares(a))) == 0.0
  {
    SquaresPrefix(a, 0);
    assert Squares(a[..0]) == [];
    assert a[..1] == a;
    assert Sum(a) == a[0];
  }

  lemma ConstantStep(a: seq<real>)
    requires |a| > 0
    ensures var n, x := |a| - 1, a[|a| - 1];
            Constant(a) <==> Constant(a[..n]) && Sum(a[..n]) == Mul(n as real, x)
  {
    var n, x := |a| - 1, a[|a| - 1];
    var b := a[..n];
    assert forall i :: 0 <= i < |b| ==> b[i] == a[i];
    if Constant(b) && n > 0 {
      SumConstant(b, a[0]);
      CancelMul(n as real, a[0], x);
    }
  }

  lemma CancelMul(k: real, x: real, y: real)
    requires k > 0.0
    ensures Mul(k, x) == Mul(k, y) <==> x == y
  {
    if x < y {
      MulPositive(k, y - x);
    } else if y < x {
      MulPositive(k, x - y);
    }
  }

  lemma GapStep(k: real, s: real, q: real, x: real, k1: real, s1: real, q1: real)
    requires k1 == k + 1.0 && s1 == s + x && q1 == q + Sq(x)
    requires k > 0.0
    requires Gap(k, s, q) >= 0.0
    ensures Gap(k1, s1, q1) >= 0.0
    ensures Gap(k1, s1, q1) == 0.0 <==> Gap(k, s, q) == 0.0 && s == Mul(k, x)
  {
    var d, c := GapGrowth(k, s, q, x, k1, s1, q1);
    GapSign(k, d, Gap(k, s, q), c);
  }

  lemma GapGrowth(k: real, s: real, q: real, x: real, k1: real, s1: real, q1: real) returns (d: real, c: real)
    requires k1 == k + 1.0 && s1 == s + x && q1 == q + Sq(x)
    ensures Gap(k1, s1, q1) == Gap(k, s, q) + d
    ensures Mul(k, d) == Gap(k, s, q) + c
    ensures c >= 0.0
    ensures c == 0.0 <==> s == Mul(k, x)
  {
    d := q - 2.0 * Mul(x, s) + Mul(k, Sq(x));
    c := Sq(s - Mul(k, x));
    GapIdentity(k, s, q, x, k1, s1, q1, d);
    Completed(k, s, q, x, d);
    SqSign(s - Mul(k, x));
  }

  lemma GapSign(k: real, d: real, g: real, c: real)
    requires k > 0.0 && g >= 0.0 && c >= 0.0
    requires Mul(k, d) == g + c
    ensures g + d >= 0.0
    ensures g + d == 0.0 <==> g == 0.0 && c == 0.0
  {
    if d < 0.0 {
      MulPositive(k, -d);
    } else if d > 0.0 {
      MulPositive(k, d);
    }
  }

  lemma GapIdentity(k: real, s: real, q: real, x: real, k1: real, s1: real, q1: real, d: real)
    requires k1 == k + 1.0 && s1 == s + x && q1 == q + Sq(x)
    requires d == q - 2.0 * Mul(x, s) + Mul(k, Sq(x))
    ensures Gap(k1, s1, q1) == Gap(k, s, q) + d
  {
  }

  lemma Completed(k: real, s: real, q: real, x: real, d: real)
    requires d == q - 2.0 * Mul(x, s) + Mul(k, Sq(x))
    ensures Mul(k, d) == Gap(k, s, q) + Sq(s - Mul(k, x))
  {
  }
}
