// The order every item list is shown in: by position, ties broken by id.
module Listing {
  import opened Survey

  // Go's < on strings, by code point.
  predicate StringLess(a: string, b: string) {
    if a == [] then b != []
    else if b == [] then false
    else a[0] < b[0] || (a[0] == b[0] && StringLess(a[1..], b[1..]))
  }

  // a and b share their first k characters; there a ends, or has the smaller character.
  predicate SmallerAt(a: string, b: string, k: nat) {
    k <= |a| && k < |b| && a[..k] == b[..k] && (k == |a| || a[k] < b[k])
  }

  // String order is decided where two strings first differ.
  lemma {:induction false} StringLessMeans(a: string, b: string)
    ensures StringLess(a, b) <==> exists k: nat :: SmallerAt(a, b, k)
  {
    if a == [] || b == [] {
      assert b != [] ==> SmallerAt(a, b, 0);
    } else if a[0] != b[0] {
      assert a[0] < b[0] ==> SmallerAt(a, b, 0);
      forall k: nat | SmallerAt(a, b, k) ensures k == 0 {
        SharedFirst(a, b, k);
      }
    } else {
      StringLessMeans(a[1..], b[1..]);
      SharedHead(a, b);
    }
  }

  lemma SharedFirst(a: string, b: string, k: nat)
    requires a != [] && b != [] && SmallerAt(a, b, k)
    ensures k > 0 ==> a[0] == b[0]
  {
    if k > 0 {
      assert a[..k][0] == b[..k][0];
    }
  }

  lemma SharedHead(a: string, b: string)
    requires a != [] && b != [] && a[0] == b[0]
    ensures (exists k: nat :: SmallerAt(a, b, k)) <==> exists k: nat :: SmallerAt(a[1..], b[1..], k)
  {
    if k: nat :| SmallerAt(a, b, k) {
      assert k > 0;
      assert a[1..][..k - 1] == a[..k][1..] && b[1..][..k - 1] == b[..k][1..];
      assert SmallerAt(a[1..], b[1..], k - 1);
    }
    if k: nat :| SmallerAt(a[1..], b[1..], k) {
      assert a[..k + 1] == [a[0]] + a[1..][..k] && b[..k + 1] == [b[0]] + b[1..][..k];
      assert SmallerAt(a, b, k + 1);
    }
  }

  lemma {:induction false} StringLessTotal(a: string, b: string)
    ensures !(StringLess(a, b) && StringLess(b, a))
    ensures a == b <==> !StringLess(a, b) && !StringLess(b, a)
  {
    if a != [] && b != [] && a[0] == b[0] {
      StringLessTotal(a[1..], b[1..]);
      assert a == [a[0]] + a[1..] && b == [b[0]] + b[1..];
    }
  }

  lemma {:induction false} StringLessTransitive(a: string, b: string, c: string)
    requires StringLess(a, b) && StringLess(b, c)
    ensures StringLess(a, c)
  {
    if a != [] && a[0] == b[0] == c[0] {
      StringLessTransitive(a[1..], b[1..], c[1..]);
    }
  }

  predicate KeyLess(orderA: int, idA: string, orderB: int, idB: string) {
    orderA < orderB || (orderA == orderB && StringLess(idA, idB))
  }

  lemma KeyLessTotal(orderA: int, idA: string, orderB: int, idB: string)
    ensures !(KeyLess(orderA, idA, orderB, idB) && KeyLess(orderB, idB, orderA, idA))
    ensures idA != idB ==> KeyLess(orderA, idA, orderB, idB) || KeyLess(orderB, idB, orderA, idA)
    ensures idA == idB && orderA == orderB ==> !KeyLess(orderA, idA, orderB, idB)
  {
    StringLessTotal(idA, idB);
  }

  lemma KeyLessTransitive(o1: int, a: string, o2: int, b: string, o3: int, c: string)
    requires KeyLess(o1, a, o2, b) && KeyLess(o2, b, o3, c)
    ensures KeyLess(o1, a, o3, c)
  {
    if o1 == o2 == o3 {
      StringLessTransitive(a, b, c);
    }
  }

  lemma KeyNotLessTransitive(o1: int, a: string, o2: int, b: string, o3: int, c: string)
    requires !KeyLess(o2, b, o1, a) && !KeyLess(o3, c, o2, b)
    ensures !KeyLess(o3, c, o1, a)
  {
    if KeyLess(o3, c, o1, a) {
      KeyLessTotal(o1, a, o2, b);
      KeyLessTotal(o2, b, o3, c);
      if KeyLess(o1, a, o2, b) {
        KeyLessTransitive(o3, c, o1, a, o2, b);
      }
    }
  }

  predicate Sorted(rows: map<string, Item>, ids: seq<string>)
    requires forall id :: id in ids ==> id in rows
  {
    forall i, j :: 0 <= i < j < |ids| ==> KeyLess(rows[ids[i]].order, ids[i], rows[ids[j]].order, ids[j])
  }

  predicate NoDuplicates(ids: seq<string>) {
    forall i, j :: 0 <= i < j < |ids| ==> ids[i] != ids[j]
  }

  predicate Exactly(rows: map<string, Item>, scaleId: string, ids: seq<string>) {
    && (forall id :: id in ids ==> id in rows && rows[id].scaleId == scaleId)
    && (forall id :: id in rows && rows[id].scaleId == scaleId ==> id in ids)
  }

  // ids lists exactly the items of the scale, each once, in the order they are shown in.
  predicate IsListing(rows: map<string, Item>, scaleId: string, ids: seq<string>) {
    && Exactly(rows, scaleId, ids)
    && NoDuplicates(ids)
    && Sorted(rows, ids)
  }

  // There is only one such list: any index that is one equals filtering the item map and sorting it.
  lemma ListingUnique(rows: map<string, Item>, scaleId: string, xs: seq<string>, ys: seq<string>)
    requires IsListing(rows, scaleId, xs) && IsListing(rows, scaleId, ys)
    ensures xs == ys
  {
    SortedSameElements(rows, xs, ys);
  }

  lemma {:induction false} SortedSameElements(rows: map<string, Item>, xs: seq<string>, ys: seq<string>)
    requires forall id :: id in xs ==> id in rows
    requires forall id :: id in ys ==> id in rows
    requires Sorted(rows, xs) && Sorted(rows, ys)
    requires forall id :: id in xs <==> id in ys
    ensures xs == ys
    decreases |xs|
  {
    SameEmptiness(xs, ys);
    if xs != [] {
      assert xs[0] in ys && ys != [];
      assert ys[0] in xs;
      SameLeast(rows, xs, ys);
      assert xs == [xs[0]] + xs[1..] && ys == [ys[0]] + ys[1..];
      HeadLeaves(rows, xs);
      HeadLeaves(rows, ys);
      SortedSameElements(rows, xs[1..], ys[1..]);
    }
  }

  lemma SameEmptiness(xs: seq<string>, ys: seq<string>)
    requires forall id :: id in xs <==> id in ys
    ensures xs == [] <==> ys == []
  {
    assert xs != [] ==> xs[0] in xs;
    assert ys != [] ==> ys[0] in ys;
  }

  lemma SameLeast(rows: map<string, Item>, xs: seq<string>, ys: seq<string>)
    requires xs != [] && ys != []
    requires forall id :: id in xs ==> id in rows
    requires forall id :: id in ys ==> id in rows
    requires Sorted(rows, xs) && Sorted(rows, ys)
    requires xs[0] in ys && ys[0] in xs
    ensures xs[0] == ys[0]
  {
    var i :| 0 <= i < |xs| && xs[i] == ys[0];
    var j :| 0 <= j < |ys| && ys[j] == xs[0];
    KeyLessTotal(rows[xs[0]].order, xs[0], rows[ys[0]].order, ys[0]);
  }

  lemma HeadLeaves(rows: map<string, Item>, xs: seq<string>)
    requires xs != []
    requires forall id :: id in xs ==> id in rows
    requires Sorted(rows, xs)
    ensures forall id :: id in xs[1..] <==> id in xs && id != xs[0]
    ensures Sorted(rows, xs[1..])
  {
    forall i | 1 <= i < |xs| ensures xs[i] != xs[0] {
      KeyLessTotal(rows[xs[0]].order, xs[0], rows[xs[i]].order, xs[i]);
    }
    assert xs == [xs[0]] + xs[1..];
  }

  ghost predicate IsLeast(rows: map<string, Item>, ids: set<string>, x: string)
    requires ids <= rows.Keys
  {
    x in ids && forall y :: y in ids && y != x ==> KeyLess(rows[x].order, x, rows[y].order, y)
  }

  lemma {:induction false} LeastExists(rows: map<string, Item>, ids: set<string>)
    requires ids <= rows.Keys && ids != {}
    ensures exists x :: IsLeast(rows, ids, x)
    decreases |ids|
  {
    var a :| a in ids;
    var others := ids - {a};
    if others == {} {
      forall y | y in ids ensures y == a {
        assert y in others || y == a;
      }
      assert IsLeast(rows, ids, a);
    } else {
      LeastExists(rows, others);
      var b :| IsLeast(rows, others, b);
      KeyLessTotal(rows[a].order, a, rows[b].order, b);
      if KeyLess(rows[a].order, a, rows[b].order, b) {
        forall y | y in ids && y != a ensures KeyLess(rows[a].order, a, rows[y].order, y) {
          if y != b {
            KeyLessTransitive(rows[a].order, a, rows[b].order, b, rows[y].order, y);
          }
        }
        assert IsLeast(rows, ids, a);
      } else {
        assert IsLeast(rows, ids, b);
      }
    }
  }

  // The ids, sorted.
  ghost function SortedIds(rows: map<string, Item>, ids: set<string>): seq<string>
    requires ids <= rows.Keys
    decreases |ids|
  {
    if ids == {} then []
    else
      LeastExists(rows, ids);
      var x :| IsLeast(rows, ids, x);
      [x] + SortedIds(rows, ids - {x})
  }

  function ItemsOf(rows: map<string, Item>, scaleId: string): set<string> {
    set id | id in rows && rows[id].scaleId == scaleId
  }

  // The item map filtered by scale and sorted.
  ghost function ListingOf(rows: map<string, Item>, scaleId: string): seq<string> {
    SortedIds(rows, ItemsOf(rows, scaleId))
  }

  lemma {:induction false} SortedIdsSorted(rows: map<string, Item>, ids: set<string>)
    requires ids <= rows.Keys
    ensures forall id :: id in SortedIds(rows, ids) <==> id in ids
    ensures Sorted(rows, SortedIds(rows, ids))
    ensures NoDuplicates(SortedIds(rows, ids))
    ensures |SortedIds(rows, ids)| == |ids|
    decreases |ids|
  {
    if ids != {} {
      LeastExists(rows, ids);
      var x :| SortedIds(rows, ids) == [x] + SortedIds(rows, ids - {x}) && IsLeast(rows, ids, x);
      SortedIdsSorted(rows, ids - {x});
      PrependLeast(rows, ids, x, SortedIds(rows, ids - {x}));
    }
  }

  lemma PrependLeast(rows: map<string, Item>, ids: set<string>, x: string, tail: seq<string>)
    requires ids <= rows.Keys && IsLeast(rows, ids, x)
    requires forall id :: id in tail <==> id in ids && id != x
    requires Sorted(rows, tail) && NoDuplicates(tail)
    ensures forall id :: id in [x] + tail <==> id in ids
    ensures Sorted(rows, [x] + tail) && NoDuplicates([x] + tail)
  {
    var all := [x] + tail;
    forall i, j | 0 <= i < j < |all|
      ensures KeyLess(rows[all[i]].order, all[i], rows[all[j]].order, all[j]) && all[i] != all[j]
    {
      assert all[j] == tail[j - 1] && tail[j - 1] in tail;
    }
  }

  lemma ListingOfIsListing(rows: map<string, Item>, scaleId: string)
    ensures IsListing(rows, scaleId, ListingOf(rows, scaleId))
    ensures |ListingOf(rows, scaleId)| == |ItemsOf(rows, scaleId)|
  {
    SortedIdsSorted(rows, ItemsOf(rows, scaleId));
  }

  lemma IsListingOf(rows: map<string, Item>, scaleId: string, ids: seq<string>)
    ensures IsListing(rows, scaleId, ids) <==> ids == ListingOf(rows, scaleId)
  {
    ListingOfIsListing(rows, scaleId);
    if IsListing(rows, scaleId, ids) {
      ListingUnique(rows, scaleId, ids, ListingOf(rows, scaleId));
    }
  }

  // Said of two neighbours: the one listed before has the smaller position, or the same position and an id that sorts first.
  lemma ListedByPosition(rows: map<string, Item>, scaleId: string, i: nat, j: nat)
    requires i < j < |ListingOf(rows, scaleId)|
    ensures
      var a, b := ListingOf(rows, scaleId)[i], ListingOf(rows, scaleId)[j];
      && a in rows && b in rows && a != b && rows[a].scaleId == rows[b].scaleId == scaleId
      && (rows[a].order < rows[b].order || (rows[a].order == rows[b].order && exists k: nat :: SmallerAt(a, b, k)))
  {
    ListingOfIsListing(rows, scaleId);
    var list := ListingOf(rows, scaleId);
    assert list[i] in list && list[j] in list;
    StringLessMeans(list[i], list[j]);
  }

  // The items of the scale hold the positions 1, 2, 3, ... in the order they are shown in.
  ghost predicate Gapless(now: map<string, Item>, scaleId: string) {
    var shown := ListingOf(now, scaleId);
    forall i :: 0 <= i < |shown| ==> shown[i] in now && now[shown[i]].order == i + 1
  }
}
