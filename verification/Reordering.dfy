// What "reorder these items by this list of ids" means, whatever store performs it.
module Reordering {
  import opened Survey
  import opened Listing

  // The members named in order, each at its first mention.
  function Listed(order: seq<string>, members: seq<string>): (r: seq<string>)
    ensures NoDuplicates(r)
    ensures forall id :: id in r <==> id in order && id in members
    ensures |r| <= |order|
  {
    if order == [] then []
    else
      var n := |order| - 1;
      var before := Listed(order[..n], members);
      assert order == order[..n] + [order[n]];
      if order[n] in members && order[n] !in before then before + [order[n]] else before
  }

  lemma ListedStep(order: seq<string>, members: seq<string>, n: nat)
    requires n < |order|
    ensures Listed(order[..n + 1], members) ==
      if order[n] in members && order[n] !in Listed(order[..n], members)
      then Listed(order[..n], members) + [order[n]] else Listed(order[..n], members)
  {
    assert order[..n + 1][..n] == order[..n];
  }

  // The members of list that are not in taken, in the order they are in.
  function Rest(list: seq<string>, taken: seq<string>): (r: seq<string>)
    ensures forall id :: id in r <==> id in list && id !in taken
    ensures |r| <= |list|
  {
    if list == [] then []
    else
      var n := |list| - 1;
      assert list == list[..n] + [list[n]];
      if list[n] in taken then Rest(list[..n], taken) else Rest(list[..n], taken) + [list[n]]
  }

  lemma RestStep(list: seq<string>, taken: seq<string>, n: nat)
    requires n < |list|
    ensures Rest(list[..n + 1], taken) ==
      if list[n] in taken then Rest(list[..n], taken) else Rest(list[..n], taken) + [list[n]]
  {
    assert list[..n + 1][..n] == list[..n];
  }

  function Reordered(list: seq<string>, order: seq<string>): seq<string> {
    Listed(order, list) + Rest(list, Listed(order, list))
  }

  // The length of xs stands for "not in xs".
  function FirstIndex(xs: seq<string>, x: string): (r: nat)
    ensures r <= |xs|
    ensures r < |xs| ==> xs[r] == x
    ensures x in xs <==> r < |xs|
    ensures forall i :: 0 <= i < r ==> xs[i] != x
  {
    if xs == [] then 0 else if xs[0] == x then 0 else 1 + FirstIndex(xs[1..], x)
  }

  // x goes before y: mentioned earlier in order, or neither mentioned and earlier in the old list.
  predicate Precedes(list: seq<string>, order: seq<string>, x: string, y: string) {
    var i, j := FirstIndex(order, x), FirstIndex(order, y);
    i < j || (i == j && FirstIndex(list, x) < FirstIndex(list, y))
  }

  // A reordering described without saying how to compute it.
  ghost predicate IsReordering(list: seq<string>, order: seq<string>, result: seq<string>) {
    && (forall id :: id in result <==> id in list)
    && (forall i, j :: 0 <= i < j < |result| ==> Precedes(list, order, result[i], result[j]))
  }

  lemma FirstIndexOfPrefix(xs: seq<string>, n: nat, x: string)
    requires n <= |xs| && x in xs[..n]
    ensures FirstIndex(xs, x) == FirstIndex(xs[..n], x) < n
  {
    var i, j := FirstIndex(xs, x), FirstIndex(xs[..n], x);
    assert xs[j] == xs[..n][j] == x;
    assert i < n;
    assert xs[..n][i] == x;
  }

  lemma NewAtEnd(xs: seq<string>, n: nat)
    requires n < |xs| && xs[n] !in xs[..n]
    ensures FirstIndex(xs, xs[n]) == n
  {
    assert forall t :: 0 <= t < n ==> xs[t] == xs[..n][t];
  }

  lemma IndexAfterAppend(ids: seq<string>, id: string)
    requires id !in ids
    ensures FirstIndex(ids + [id], id) == |ids|
    ensures forall x {:trigger FirstIndex(ids + [id], x)} :: x in ids ==> FirstIndex(ids + [id], x) == FirstIndex(ids, x)
  {
    var longer := ids + [id];
    assert longer[..|ids|] == ids;
    forall x | x in ids ensures FirstIndex(longer, x) == FirstIndex(ids, x) {
      FirstIndexOfPrefix(longer, |ids|, x);
    }
    NewAtEnd(longer, |ids|);
  }

  // xs follows the order in which base first mentions things.
  predicate Ascending(base: seq<string>, xs: seq<string>) {
    forall i, j :: 0 <= i < j < |xs| ==> FirstIndex(base, xs[i]) < FirstIndex(base, xs[j])
  }

  lemma AscendingInLonger(base: seq<string>, n: nat, xs: seq<string>)
    requires n <= |base| && Ascending(base[..n], xs)
    requires forall x :: x in xs ==> x in base[..n]
    ensures Ascending(base, xs)
    ensures forall x :: x in xs ==> FirstIndex(base, x) < n
  {
    forall x | x in xs ensures FirstIndex(base, x) == FirstIndex(base[..n], x) < n {
      FirstIndexOfPrefix(base, n, x);
    }
    forall i, j | 0 <= i < j < |xs| ensures FirstIndex(base, xs[i]) < FirstIndex(base, xs[j]) {
      assert xs[i] in xs && xs[j] in xs;
    }
  }

  lemma AscendingAppend(base: seq<string>, xs: seq<string>, x: string)
    requires Ascending(base, xs)
    requires forall y :: y in xs ==> FirstIndex(base, y) < FirstIndex(base, x)
    ensures Ascending(base, xs + [x])
  {
    var zs := xs + [x];
    forall i, j | 0 <= i < j < |zs| ensures FirstIndex(base, zs[i]) < FirstIndex(base, zs[j]) {
      assert zs[i] == xs[i] && xs[i] in xs;
    }
  }

  lemma {:induction false} ListedInOrder(order: seq<string>, members: seq<string>)
    ensures Ascending(order, Listed(order, members))
  {
    if order == [] {
    } else {
      var n := |order| - 1;
      var before := Listed(order[..n], members);
      ListedInOrder(order[..n], members);
      AscendingInLonger(order, n, before);
      if Listed(order, members) != before {
        assert order[n] !in order[..n];
        NewAtEnd(order, n);
        AscendingAppend(order, before, order[n]);
      }
    }
  }

  lemma LastIsNew(list: seq<string>)
    requires NoDuplicates(list) && list != []
    ensures NoDuplicates(list[..|list| - 1]) && list[|list| - 1] !in list[..|list| - 1]
  {
  }

  lemma {:induction false} RestInOrder(list: seq<string>, taken: seq<string>)
    requires NoDuplicates(list)
    ensures Ascending(list, Rest(list, taken))
  {
    if list == [] {
    } else {
      var n := |list| - 1;
      var before := Rest(list[..n], taken);
      LastIsNew(list);
      RestInOrder(list[..n], taken);
      AscendingInLonger(list, n, before);
      if list[n] !in taken {
        NewAtEnd(list, n);
        AscendingAppend(list, before, list[n]);
      }
    }
  }

  lemma ReorderedIsReordering(list: seq<string>, order: seq<string>)
    requires NoDuplicates(list)
    ensures IsReordering(list, order, Reordered(list, order))
    ensures NoDuplicates(Reordered(list, order))
  {
    var l, r, out := Listed(order, list), Rest(list, Listed(order, list)), Reordered(list, order);
    ListedInOrder(order, list);
    RestInOrder(list, l);
    forall i, j | 0 <= i < j < |out| ensures Precedes(list, order, out[i], out[j]) {
      PlacesPrecede(list, order, l, r, i, j);
    }
    assert forall i, j :: 0 <= i < j < |out| ==> Precedes(list, order, out[i], out[j]);
  }

  lemma PlacesPrecede(list: seq<string>, order: seq<string>, l: seq<string>, r: seq<string>, i: nat, j: nat)
    requires Ascending(order, l) && Ascending(list, r) && i < j < |l + r|
    requires forall id :: id in l ==> id in order
    requires forall id :: id in r ==> id !in order
    ensures Precedes(list, order, (l + r)[i], (l + r)[j])
  {
    if j >= |l| {
      assert r[j - |l|] in r;
      if i < |l| {
        assert l[i] in l;
      } else {
        assert r[i - |l|] in r;
      }
    } else {
      assert l[i] in l && l[j] in l;
    }
  }

  // Reordered is the only reordering.
  lemma ReorderingUnique(list: seq<string>, order: seq<string>, result: seq<string>)
    requires NoDuplicates(list)
    ensures IsReordering(list, order, result) <==> result == Reordered(list, order)
  {
    ReorderedIsReordering(list, order);
    if IsReordering(list, order, result) {
      PrecedesSorts(list, order, result, Reordered(list, order));
    }
  }

  lemma {:induction false} PrecedesSorts(list: seq<string>, order: seq<string>, xs: seq<string>, ys: seq<string>)
    requires forall id :: id in xs <==> id in ys
    requires forall i, j :: 0 <= i < j < |xs| ==> Precedes(list, order, xs[i], xs[j])
    requires forall i, j :: 0 <= i < j < |ys| ==> Precedes(list, order, ys[i], ys[j])
    ensures xs == ys
    decreases |xs|
  {
    SameEmptiness(xs, ys);
    if xs != [] {
      assert xs[0] in ys && ys != [];
      assert ys[0] in xs;
      var i :| 0 <= i < |xs| && xs[i] == ys[0];
      var j :| 0 <= j < |ys| && ys[j] == xs[0];
      FirstPrecedes(list, order, xs, i);
      FirstPrecedes(list, order, ys, j);
      assert xs[0] == ys[0];
      TailElements(list, order, xs);
      TailElements(list, order, ys);
      PrecedesSorts(list, order, xs[1..], ys[1..]);
      assert xs == [xs[0]] + xs[1..] && ys == [ys[0]] + ys[1..];
    }
  }

  lemma FirstPrecedes(list: seq<string>, order: seq<string>, xs: seq<string>, i: nat)
    requires i < |xs|
    requires forall i, j :: 0 <= i < j < |xs| ==> Precedes(list, order, xs[i], xs[j])
    ensures xs[0] == xs[i] || Precedes(list, order, xs[0], xs[i])
  {
  }

  lemma TailElements(list: seq<string>, order: seq<string>, xs: seq<string>)
    requires xs != []
    requires forall i, j :: 0 <= i < j < |xs| ==> Precedes(list, order, xs[i], xs[j])
    ensures forall id :: id in xs[1..] <==> id in xs && id != xs[0]
  {
    forall i | 1 <= i < |xs| ensures xs[i] != xs[0] {
      assert Precedes(list, order, xs[0], xs[i]);
    }
    assert xs == [xs[0]] + xs[1..];
  }

  // Nothing is lost or invented.
  lemma ReorderedIsPermutation(list: seq<string>, order: seq<string>)
    requires NoDuplicates(list)
    ensures multiset(Reordered(list, order)) == multiset(list)
    ensures |Reordered(list, order)| == |list|
  {
    ReorderedIsReordering(list, order);
    SameMultiset(Reordered(list, order), list);
    assert |multiset(Reordered(list, order))| == |multiset(list)|;
  }

  lemma SameMultiset(xs: seq<string>, ys: seq<string>)
    requires NoDuplicates(xs) && NoDuplicates(ys)
    requires forall id :: id in xs <==> id in ys
    ensures multiset(xs) == multiset(ys)
  {
    forall id ensures multiset(xs)[id] == multiset(ys)[id] {
      CountOnce(xs, id);
      CountOnce(ys, id);
    }
  }

  lemma {:induction false} CountOnce(xs: seq<string>, id: string)
    requires NoDuplicates(xs)
    ensures multiset(xs)[id] == if id in xs then 1 else 0
  {
    if xs == [] {
    } else {
      var n := |xs| - 1;
      assert xs == xs[..n] + [xs[n]];
      CountOnce(xs[..n], id);
    }
  }

  // Asking for the order already shown changes nothing, and asking twice is asking once.
  lemma ReorderTwice(list: seq<string>, order: seq<string>)
    requires NoDuplicates(list)
    ensures Reordered(list, list) == list
    ensures Reordered(Reordered(list, order), order) == Reordered(list, order)
  {
    var once := Reordered(list, order);
    ReorderedIsReordering(list, order);
    forall i | 0 <= i < |list| ensures FirstIndex(list, list[i]) == i {
    }
    ReorderingUnique(list, list, list);
    forall i | 0 <= i < |once| ensures FirstIndex(once, once[i]) == i {
    }
    forall i, j | 0 <= i < j < |once| ensures Precedes(once, order, once[i], once[j]) {
      assert Precedes(list, order, once[i], once[j]);
    }
    ReorderingUnique(once, order, once);
  }

  lemma {:induction false} RestStaysSorted(rows: map<string, Item>, ids: seq<string>, taken: seq<string>)
    requires forall id :: id in ids ==> id in rows
    requires Sorted(rows, ids) && NoDuplicates(ids)
    ensures Sorted(rows, Rest(ids, taken)) && NoDuplicates(Rest(ids, taken))
  {
    if ids != [] {
      var n := |ids| - 1;
      assert ids == ids[..n] + [ids[n]];
      RestStaysSorted(rows, ids[..n], taken);
      AppendGreatest(rows, ids[..n], ids[n], Rest(ids[..n], taken));
    }
  }

  lemma AppendGreatest(rows: map<string, Item>, ids: seq<string>, last: string, part: seq<string>)
    requires forall id :: id in ids + [last] ==> id in rows
    requires Sorted(rows, ids + [last]) && NoDuplicates(ids + [last])
    requires forall id :: id in part ==> id in ids
    requires Sorted(rows, part) && NoDuplicates(part)
    ensures Sorted(rows, part + [last]) && NoDuplicates(part + [last])
  {
    forall id | id in ids ensures id != last && KeyLess(rows[id].order, id, rows[last].order, last) {
      var j :| 0 <= j < |ids| && ids[j] == id;
      assert (ids + [last])[j] == id && (ids + [last])[|ids|] == last;
    }
    var all := part + [last];
    forall i, j | 0 <= i < j < |all|
      ensures all[i] != all[j] && KeyLess(rows[all[i]].order, all[i], rows[all[j]].order, all[j])
    {
      assert part[i] in part;
    }
  }
}
