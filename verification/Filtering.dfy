// What a loop that keeps some elements of a list leaves.
module Filtering {
  // ys are the elements of xs that are kept, as often and in the order they stand there: at names their places.
  ghost predicate Picks<T>(xs: seq<T>, keep: T -> bool, ys: seq<T>, at: seq<int>) {
    && |at| == |ys|
    && (forall j :: 0 <= j < |at| ==> 0 <= at[j] < |xs| && ys[j] == xs[at[j]])
    && (forall i, j :: 0 <= i < j < |at| ==> at[i] < at[j])
    && (forall i {:trigger i in at} :: 0 <= i < |xs| ==> (i in at <==> keep(xs[i])))
  }

  lemma PicksOneMore<T>(xs: seq<T>, keep: T -> bool, ys: seq<T>, at: seq<int>) returns (more: seq<int>)
    requires xs != [] && Picks(xs[..|xs| - 1], keep, ys, at)
    ensures Picks(xs, keep, if keep(xs[|xs| - 1]) then ys + [xs[|xs| - 1]] else ys, more)
  {
    if keep(xs[|xs| - 1]) {
      PicksLast(xs, keep, ys, at);
      more := at + [|xs| - 1];
    } else {
      more := at;
    }
  }

  lemma PicksLast<T>(xs: seq<T>, keep: T -> bool, ys: seq<T>, at: seq<int>)
    requires xs != [] && Picks(xs[..|xs| - 1], keep, ys, at) && keep(xs[|xs| - 1])
    ensures Picks(xs, keep, ys + [xs[|xs| - 1]], at + [|xs| - 1])
  {
    var n := |xs| - 1;
    var more := at + [n];
    assert more[|at|] == n;
    forall i | 0 <= i < |xs| ensures i in more <==> keep(xs[i]) {
      if i < n && i in at {
        var j :| 0 <= j < |at| && at[j] == i;
        assert more[j] == i;
      }
    }
  }

  // The places of xs that hold something of the kind.
  ghost function Places<T>(xs: seq<T>, kind: T -> bool): set<int> {
    set i | 0 <= i < |xs| && kind(xs[i])
  }

  lemma PlacesGrow<T>(xs: seq<T>, kind: T -> bool)
    requires xs != []
    ensures |Places(xs, kind)| == |Places(xs[..|xs| - 1], kind)| + if kind(xs[|xs| - 1]) then 1 else 0
  {
    var n := |xs| - 1;
    var before, after := Places(xs[..n], kind), Places(xs, kind);
    assert n !in before;
    assert after == before + if kind(xs[n]) then {n} else {};
  }

  // A multiset counts places.
  lemma {:induction false} CountsPlaces<T>(xs: seq<T>, x: T, kind: T -> bool)
    requires forall y :: y in xs ==> (kind(y) <==> y == x)
    ensures multiset(xs)[x] == |Places(xs, kind)|
  {
    if xs != [] {
      var n := |xs| - 1;
      CountsPlaces(xs[..n], x, kind);
      PlacesGrow(xs, kind);
      assert xs == xs[..n] + [xs[n]];
    }
  }
}
