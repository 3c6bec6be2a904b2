// The three implementations of reordering mean the same.
module ReorderAgreement {
  import opened Survey
  import opened Listing
  import opened Reordering
  import opened Text
  import Catalogue
  import SqliteStore
  import EditorState

  lemma PlaceIn(listed: seq<string>, rest: seq<string>, x: string)
    requires NoDuplicates(listed + rest)
    requires x in listed + rest
    ensures FirstIndex(listed + rest, x) == if x in listed then FirstIndex(listed, x) else |listed| + FirstIndex(rest, x)
  {
    var all := listed + rest;
    if x in listed {
      assert all[..|listed|] == listed;
      FirstIndexOfPrefix(all, |listed|, x);
    } else {
      var i, j := FirstIndex(all, x), |listed| + FirstIndex(rest, x);
      assert all[j] == x == all[i];
    }
  }

  // Distinct ids are in first-mention order: of two of them, the one mentioned first comes first.
  lemma DistinctInOrder(order: seq<string>, x: string, y: string)
    requires x in order && y in order && FirstIndex(order, x) < FirstIndex(order, y)
    ensures FirstIndex(SqliteStore.Distinct(order), x) < FirstIndex(SqliteStore.Distinct(order), y)
  {
    var d := SqliteStore.Distinct(order);
    ListedInOrder(order, order);
    AscendingFollows(order, d, x, y);
  }

  // The table after SQLite's reorder lists the named items first and the rest in old order.
  lemma SqliteReorderLists(rows: map<string, Item>, scaleId: string, order: seq<string>)
    ensures ListingOf(SqliteStore.Reorder(rows, scaleId, order), scaleId)
         == Reordered(ListingOf(rows, scaleId), Text.Cleaned(order))
  {
    var clean := Text.Cleaned(order);
    var listed, list := SqliteStore.Distinct(clean), ListingOf(rows, scaleId);
    ListingOfIsListing(rows, scaleId);
    RestStaysSorted(rows, list, listed);
    var all := listed + Rest(list, listed);
    assert NoDuplicates(all);
    PlacedLists(rows, scaleId, list, clean, all);
  }

  lemma PlacedLists(rows: map<string, Item>, scaleId: string, list: seq<string>, clean: seq<string>, all: seq<string>)
    requires list == ListingOf(rows, scaleId) && IsListing(rows, scaleId, list)
    requires all == SqliteStore.Distinct(clean) + Rest(list, SqliteStore.Distinct(clean)) && NoDuplicates(all)
    ensures ListingOf(SqliteStore.Placed(rows, scaleId, all), scaleId) == Reordered(list, clean)
  {
    var now, out := SqliteStore.Placed(rows, scaleId, all), Reordered(list, clean);
    ReorderedIsReordering(list, clean);
    forall i, j | 0 <= i < j < |out|
      ensures KeyLess(now[out[i]].order, out[i], now[out[j]].order, out[j])
    {
      PositionsFollow(list, clean, out[i], out[j]);
      assert out[i] in out && out[j] in out;
    }
    assert Exactly(now, scaleId, out);
    IsListingOf(now, scaleId, out);
  }

  lemma PositionsFollow(list: seq<string>, clean: seq<string>, x: string, y: string)
    requires NoDuplicates(list) && x in list && y in list && Precedes(list, clean, x, y)
    requires NoDuplicates(SqliteStore.Distinct(clean) + Rest(list, SqliteStore.Distinct(clean)))
    ensures var all := SqliteStore.Distinct(clean) + Rest(list, SqliteStore.Distinct(clean));
            FirstIndex(all, x) < FirstIndex(all, y)
  {
    var listed := SqliteStore.Distinct(clean);
    var rest := Rest(list, listed);
    PlaceIn(listed, rest, x);
    PlaceIn(listed, rest, y);
    if x in clean && y in clean {
      DistinctInOrder(clean, x, y);
    } else if y !in clean && x !in clean {
      RestFollows(list, listed, x, y);
    }
  }

  lemma RestFollows(list: seq<string>, listed: seq<string>, x: string, y: string)
    requires NoDuplicates(list) && x in list && y in list && x !in listed && y !in listed
    requires FirstIndex(list, x) < FirstIndex(list, y)
    ensures FirstIndex(Rest(list, listed), x) < FirstIndex(Rest(list, listed), y)
  {
    var rest := Rest(list, listed);
    RestInOrder(list, listed);
    AscendingFollows(list, rest, x, y);
  }

  lemma AscendingFollows(base: seq<string>, xs: seq<string>, x: string, y: string)
    requires Ascending(base, xs) && x in xs && y in xs
    requires FirstIndex(base, x) < FirstIndex(base, y)
    ensures FirstIndex(xs, x) < FirstIndex(xs, y)
  {
    var i, j := FirstIndex(xs, x), FirstIndex(xs, y);
    assert xs[i] == x && xs[j] == y;
  }

  // Other scales' rows are not touched at all.
  lemma SqliteReorderIsLocal(rows: map<string, Item>, scaleId: string, order: seq<string>, other: string)
    requires other != scaleId
    ensures ListingOf(SqliteStore.Reorder(rows, scaleId, order), other) == ListingOf(rows, other)
  {
    ListingOfIsListing(rows, other);
    Catalogue.OtherScaleUntouched(rows, SqliteStore.Reorder(rows, scaleId, order), other, ListingOf(rows, other));
  }

  // What each of the three shows after being asked for the same order, whatever ids it holds: repeated, unknown or of
  // another scale. SQLite alone cleans the ids first; on ids that need no cleaning the three lists are one and the same.
  lemma ThreeReorderingsAgree(st: Catalogue.State, rows: map<string, Item>, ids: seq<string>, scaleId: string, order: seq<string>)
    requires ListingOf(st.rows, scaleId) == ListingOf(rows, scaleId) == ids
    requires "" !in ids
    ensures ListingOf(Catalogue.Reorder(st, scaleId, order).rows, scaleId) == Reordered(ids, order)
    ensures ListingOf(SqliteStore.Reorder(rows, scaleId, order), scaleId) == Reordered(ids, Text.Cleaned(order))
    ensures Listed(order, ids) + Rest(ids, Listed(order, ids) + [""]) == Reordered(ids, order)
    ensures (forall id :: id in order ==> Trimmed(id)) ==> Reordered(ids, Text.Cleaned(order)) == Reordered(ids, order)
  {
    Catalogue.ReorderLists(st, scaleId, order, scaleId);
    SqliteReorderLists(rows, scaleId, order);
    EditorState.EditorReorders(ids, order);
    if forall id :: id in order ==> Trimmed(id) {
      TrimmedOrder(ids, order);
    }
  }

  lemma TrimmedOrder(ids: seq<string>, order: seq<string>)
    requires "" !in ids && forall id :: id in order ==> Trimmed(id)
    ensures Reordered(ids, Text.Cleaned(order)) == Reordered(ids, order)
  {
    forall id | id in order ensures Trim(id) == id {
      TrimIsTrimmed(id);
    }
    SqliteStore.CleanedTrimmed(order);
    SkipUnknown(order, ids, [""]);
  }

  lemma {:induction false} SkipUnknown(order: seq<string>, members: seq<string>, unknown: seq<string>)
    requires forall id :: id in unknown ==> id !in members
    ensures Listed(Rest(order, unknown), members) == Listed(order, members)
  {
    if order != [] {
      var n := |order| - 1;
      var before := Rest(order[..n], unknown);
      SkipUnknown(order[..n], members, unknown);
      if order[n] !in unknown {
        ListedAppend(before, order[n], members);
      }
    }
  }

  lemma ListedAppend(order: seq<string>, id: string, members: seq<string>)
    ensures Listed(order + [id], members) ==
      if id in members && id !in Listed(order, members) then Listed(order, members) + [id] else Listed(order, members)
  {
    assert (order + [id])[..|order|] == order;
  }

  // An untrimmed id is one the memory store and the editor do not know, but SQLite does.
  lemma UntrimmedIdsDisagree(a: string, b: string)
    requires a != b && b != "" && Trimmed(b) && a != " " + b
    ensures Reordered([a, b], Text.Cleaned([" " + b])) == [b, a]
    ensures Reordered([a, b], [" " + b]) == [a, b]
  {
    var padded := " " + b;
    TrimPadded(b, " ", "");
    assert padded + "" == padded;
    CleanedOne(padded);
    ReorderOfTwo(a, b, b);
    ReorderOfTwo(a, b, padded);
  }

  lemma ReorderOfTwo(a: string, b: string, id: string)
    requires a != b && a != id
    ensures Reordered([a, b], [id]) == if id == b then [b, a] else [a, b]
  {
    ListedOne(id, [a, b]);
    RestOfTwo(a, b, if id == b then [b] else []);
  }

  lemma ListedOne(id: string, members: seq<string>)
    ensures Listed([id], members) == if id in members then [id] else []
  {
    ListedAppend([], id, members);
    assert [] + [id] == [id];
  }

  lemma RestOfTwo(a: string, b: string, taken: seq<string>)
    requires a !in taken
    ensures Rest([a, b], taken) == if b in taken then [a] else [a, b]
  {
    RestOfOne(a, taken);
    assert [a, b][..1] == [a];
  }

  lemma RestOfOne(a: string, taken: seq<string>)
    ensures Rest([a], taken) == if a in taken then [] else [a]
  {
    assert [a][..0] == [];
  }

  // Everything the statement about positions speaks of.
  ghost predicate PlacedIn(now: map<string, Item>, scaleId: string, all: seq<string>) {
    && NoDuplicates(all)
    && (forall id :: id in ItemsOf(now, scaleId) ==> id in all && now[id].order == FirstIndex(all, id) + 1)
  }

  // The positions SQLite leaves are 1..n exactly when no id of another scale, or of no item, is mentioned among the
  // first n places; the memory store's always are.
  lemma SqlitePositions(rows: map<string, Item>, scaleId: string, order: seq<string>)
    ensures var listed, mine := SqliteStore.Distinct(Text.Cleaned(order)), ItemsOf(rows, scaleId);
            var all := listed + Rest(ListingOf(rows, scaleId), listed);
            Gapless(SqliteStore.Reorder(rows, scaleId, order), scaleId)
            <==> (forall id :: id in listed && id !in mine ==> FirstIndex(all, id) >= |mine|)
  {
    var listed := SqliteStore.Distinct(Text.Cleaned(order));
    var all, now := listed + Rest(ListingOf(rows, scaleId), listed), SqliteStore.Reorder(rows, scaleId, order);
    SqliteReorderPlaces(rows, scaleId, order, listed, all);
    if Gapless(now, scaleId) {
      GaplessPlaces(now, scaleId, all);
    }
    if ForeignComeLate(all, ItemsOf(now, scaleId)) {
      PlacesGapless(now, scaleId, all);
    }
  }

  ghost predicate ForeignComeLate(all: seq<string>, mine: set<string>) {
    forall id :: id in all && id !in mine ==> FirstIndex(all, id) >= |mine|
  }

  lemma SqliteReorderPlaces(rows: map<string, Item>, scaleId: string, order: seq<string>, listed: seq<string>, all: seq<string>)
    requires listed == SqliteStore.Distinct(Text.Cleaned(order))
    requires all == listed + Rest(ListingOf(rows, scaleId), listed)
    ensures PlacedIn(SqliteStore.Reorder(rows, scaleId, order), scaleId, all)
    ensures ItemsOf(SqliteStore.Reorder(rows, scaleId, order), scaleId) == ItemsOf(rows, scaleId)
    ensures forall id :: id !in ItemsOf(rows, scaleId) ==> (id in all <==> id in listed)
  {
    var list, now := ListingOf(rows, scaleId), SqliteStore.Reorder(rows, scaleId, order);
    var rest := Rest(list, listed);
    ListingOfIsListing(rows, scaleId);
    RestStaysSorted(rows, list, listed);
    JoinDistinct(listed, rest);
    assert ItemsOf(now, scaleId) == ItemsOf(rows, scaleId);
    forall id | id in ItemsOf(now, scaleId) ensures id in all && now[id].order == FirstIndex(all, id) + 1 {
      assert id in list;
    }
  }

  lemma JoinDistinct(xs: seq<string>, ys: seq<string>)
    requires NoDuplicates(xs) && NoDuplicates(ys)
    requires forall id :: id in ys ==> id !in xs
    ensures NoDuplicates(xs + ys)
  {
    var all := xs + ys;
    forall i, j | 0 <= i < j < |all| ensures all[i] != all[j] {
      if |xs| <= j {
        assert all[j] == ys[j - |xs|] && all[j] in ys;
        assert i < |xs| ==> all[i] in xs;
      }
    }
  }

  lemma GaplessPlaces(now: map<string, Item>, scaleId: string, all: seq<string>)
    requires PlacedIn(now, scaleId, all) && Gapless(now, scaleId)
    ensures ForeignComeLate(all, ItemsOf(now, scaleId))
  {
    var shown, mine := ListingOf(now, scaleId), ItemsOf(now, scaleId);
    ListingOfIsListing(now, scaleId);
    forall i | 0 <= i < |mine| ensures i < |all| && all[i] in mine {
      assert shown[i] in shown;
      assert FirstIndex(all, shown[i]) == i;
    }
  }

  lemma PlacesGapless(now: map<string, Item>, scaleId: string, all: seq<string>)
    requires PlacedIn(now, scaleId, all)
    requires ForeignComeLate(all, ItemsOf(now, scaleId))
    ensures Gapless(now, scaleId)
  {
    var mine := ItemsOf(now, scaleId);
    FirstPlacesAreMine(all, mine);
    var first := all[..|mine|];
    forall i | 0 <= i < |mine| ensures FirstIndex(all, first[i]) == i && first[i] in mine {
      assert all[i] == first[i] && first[i] in first;
    }
    assert IsListing(now, scaleId, first);
    IsListingOf(now, scaleId, first);
  }

  lemma FirstPlacesAreMine(all: seq<string>, mine: set<string>)
    requires NoDuplicates(all)
    requires forall id :: id in mine ==> id in all
    requires forall id :: id in all && id !in mine ==> FirstIndex(all, id) >= |mine|
    ensures |mine| <= |all|
    ensures forall id :: id in all[..|mine|] <==> id in mine
  {
    var every := set id | id in all;
    DistinctCount(all);
    Smaller(mine, every);
    var first := all[..|mine|];
    DistinctCount(first);
    var firstSet := set id | id in first;
    forall id | id in firstSet ensures id in mine {
      var k :| 0 <= k < |first| && first[k] == id;
      assert all[k] == id && FirstIndex(all, id) <= k;
    }
    Smaller(firstSet, mine);
    Equal(firstSet, mine);
  }

  lemma {:induction false} DistinctCount(ids: seq<string>)
    requires NoDuplicates(ids)
    ensures |set id | id in ids| == |ids|
  {
    if ids != [] {
      var n := |ids| - 1;
      DistinctCount(ids[..n]);
      assert ids == ids[..n] + [ids[n]];
      assert (set id | id in ids) == (set id | id in ids[..n]) + {ids[n]};
    }
  }

  lemma Smaller(a: set<string>, b: set<string>)
    requires a <= b
    ensures |a| <= |b|
  {
    assert b == a + (b - a);
  }

  lemma Equal(a: set<string>, b: set<string>)
    requires a <= b && |a| == |b|
    ensures a == b
  {
    assert b == a + (b - a);
  }

  // For instance, one unknown id leaves no item at position 1 where there is only one.
  lemma SqliteGap(rows: map<string, Item>, scaleId: string, id: string, unknown: string)
    requires ListingOf(rows, scaleId) == [id] && unknown != id && unknown != "" && Trimmed(unknown)
    ensures id in rows && SqliteStore.Reorder(rows, scaleId, [unknown])[id].order == 2
  {
    ListingOfIsListing(rows, scaleId);
    assert id in [id];
    UnknownStaysListed(unknown);
    RestOfOne(id, [unknown]);
    PlacedLast(rows, scaleId, [unknown], id);
  }

  lemma LoneItem(it: Item)
    ensures ListingOf(map[it.id := it], it.scaleId) == [it.id]
  {
    IsListingOf(map[it.id := it], it.scaleId, [it.id]);
  }

  lemma PlacedLast(rows: map<string, Item>, scaleId: string, ids: seq<string>, id: string)
    requires id in rows && rows[id].scaleId == scaleId && id !in ids
    ensures SqliteStore.Placed(rows, scaleId, ids + [id])[id].order == |ids| + 1
  {
    IndexAfterAppend(ids, id);
  }

  lemma UnknownStaysListed(unknown: string)
    requires unknown != "" && Trimmed(unknown)
    ensures SqliteStore.Distinct(Text.Cleaned([unknown])) == [unknown]
  {
    TrimIsTrimmed(unknown);
    CleanedOne(unknown);
    ListedOne(unknown, [unknown]);
  }
}
