// AddItem of internal/api/store.go on values: no caller makes sure that an id is unused, and on an id in use the index
// is wrong afterwards.
module FreshIds {
  import opened Survey
  import opened Listing
  import opened ItemsFile
  import opened Catalogue

  // itemsByScale on values, as AddItem changes it: nothing is taken out.
  type Index = map<string, seq<Item>>

  function ListAt(index: Index, scaleId: string): seq<Item> {
    if scaleId in index then index[scaleId] else []
  }

  function Added(index: Index, it: Item): Index {
    index[it.scaleId := ByPosition(ListAt(index, it.scaleId) + [it])]
  }

  // Every list holds the scale's items of the map, in the order they are shown in.
  ghost predicate IsIndex(rows: map<string, Item>, index: Index) {
    && (forall id :: id in rows ==> rows[id].id == id)
    && (forall s :: ItemIds(ListAt(index, s)) == ListingOf(rows, s))
    && (forall s, it :: it in ListAt(index, s) ==> it.id in rows && rows[it.id] == it)
  }

  lemma Enumerated(rows: map<string, Item>, index: Index, scaleId: string)
    requires IsIndex(rows, index)
    ensures Enumerates(ListAt(index, scaleId), rows, scaleId)
  {
    var list := ListAt(index, scaleId);
    var ids := ItemIds(list);
    ListingOfIsListing(rows, scaleId);
    forall it | it in list ensures it.scaleId == scaleId {
      var i :| 0 <= i < |list| && list[i] == it;
      assert ids[i] in ids;
    }
    forall id | id in rows && rows[id].scaleId == scaleId ensures rows[id] in list {
      var i :| 0 <= i < |ids| && ids[i] == id;
      assert list[i] in list;
    }
  }

  // The index is right again after an item with a position was added exactly when its id was not in use.
  lemma AddKeepsIndexIffFresh(rows: map<string, Item>, index: Index, it: Item)
    requires IsIndex(rows, index)
    ensures IsIndex(rows[it.id := it], Added(index, it)) <==> it.id !in rows
  {
    if it.id !in rows {
      FreshKeepsIndex(rows, index, it);
    } else if rows[it.id].scaleId == it.scaleId {
      ListedTwice(rows, index, it);
    } else {
      ListedElsewhere(rows, index, it);
    }
  }

  lemma FreshKeepsIndex(rows: map<string, Item>, index: Index, it: Item)
    requires IsIndex(rows, index) && it.id !in rows
    ensures IsIndex(rows[it.id := it], Added(index, it))
  {
    var rows', index' := rows[it.id := it], Added(index, it);
    forall s ensures ItemIds(ListAt(index', s)) == ListingOf(rows', s) && Enumerates(ListAt(index', s), rows', s) {
      ListedAfter(rows, index, it, s);
    }
  }

  lemma ListedAfter(rows: map<string, Item>, index: Index, it: Item, s: string)
    requires IsIndex(rows, index) && it.id !in rows
    ensures ItemIds(ListAt(Added(index, it), s)) == ListingOf(rows[it.id := it], s)
    ensures Enumerates(ListAt(Added(index, it), s), rows[it.id := it], s)
  {
    Enumerated(rows, index, s);
    if s == it.scaleId {
      Grown(ListAt(index, s), rows, it);
      ExportFollowsListing(ListAt(index, s) + [it], rows[it.id := it], s);
    } else {
      ListingOfIsListing(rows, s);
      OtherScaleUntouched(rows, rows[it.id := it], s, ListingOf(rows, s));
      Unmoved(ListAt(index, s), rows, s, it);
    }
  }

  lemma Unmoved(list: seq<Item>, rows: map<string, Item>, s: string, it: Item)
    requires Enumerates(list, rows, s) && it.id !in rows && it.scaleId != s
    ensures Enumerates(list, rows[it.id := it], s)
  {
  }

  lemma Grown(list: seq<Item>, rows: map<string, Item>, it: Item)
    requires Enumerates(list, rows, it.scaleId) && it.id !in rows
    ensures Enumerates(list + [it], rows[it.id := it], it.scaleId)
  {
    var longer := list + [it];
    forall i, j | 0 <= i < j < |longer| ensures ItemIds(longer)[i] != ItemIds(longer)[j] {
      assert list[i] in list;
      if j < |list| {
        assert ItemIds(list)[i] != ItemIds(list)[j];
      }
    }
  }

  lemma ListedTwice(rows: map<string, Item>, index: Index, it: Item)
    requires IsIndex(rows, index) && it.id in rows && rows[it.id].scaleId == it.scaleId
    ensures !IsIndex(rows[it.id := it], Added(index, it))
  {
    var list := ListAt(index, it.scaleId);
    var sorted := ByPosition(list + [it]);
    Enumerated(rows, index, it.scaleId);
    ByPositionSorts(list + [it]);
    ListingOfIsListing(rows[it.id := it], it.scaleId);
    var i :| 0 <= i < |list| && list[i] == rows[it.id];
    assert ItemIds(list + [it])[i] == ItemIds(list + [it])[|list|];
    if NoDuplicates(ItemIds(sorted)) {
      DistinctIdsShuffled(sorted, list + [it]);
    }
  }

  lemma ListedElsewhere(rows: map<string, Item>, index: Index, it: Item)
    requires IsIndex(rows, index) && it.id in rows && rows[it.id].scaleId != it.scaleId
    ensures !IsIndex(rows[it.id := it], Added(index, it))
  {
    var s := rows[it.id].scaleId;
    var list := ListAt(index, s);
    Enumerated(rows, index, s);
    ListingOfIsListing(rows[it.id := it], s);
    var i :| 0 <= i < |list| && list[i] == rows[it.id];
    assert ItemIds(list)[i] in ItemIds(list);
    assert ListAt(Added(index, it), s) == list;
  }
}
