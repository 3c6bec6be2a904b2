// ReorderItems, AddItem's position and the listing query of internal/db/sqlite_store.go. The items table is a map of
// rows, an UPDATE changes one entry of it and a SELECT is a snapshot.
module SqliteStore {
  import opened Survey
  import opened Listing
  import opened Reordering
  import opened Text

  lemma CleanedStep(order: seq<string>, n: nat)
    requires n < |order|
    ensures Cleaned(order[..n + 1]) ==
      if Trim(order[n]) == "" then Cleaned(order[..n]) else Cleaned(order[..n]) + [Trim(order[n])]
  {
    assert order[..n + 1][..n] == order[..n];
  }

  lemma {:induction false} CleanedTrimmed(order: seq<string>)
    requires forall id :: id in order ==> Trim(id) == id
    ensures forall id :: id in Cleaned(order) <==> id in order && id != ""
    ensures Cleaned(order) == Rest(order, [""])
  {
    if order != [] {
      var n := |order| - 1;
      assert order == order[..n] + [order[n]];
      CleanedTrimmed(order[..n]);
    }
  }

  // Each id once, at its first mention.
  function Distinct(order: seq<string>): seq<string> {
    Listed(order, order)
  }

  // The rows of the scale named in ids get the positions of their first mention, counted from 1.
  function Placed(rows: map<string, Item>, scaleId: string, ids: seq<string>): (r: map<string, Item>)
    ensures r.Keys == rows.Keys
    ensures forall id :: id in rows ==>
      r[id] == if id in ids && rows[id].scaleId == scaleId then rows[id].(order := FirstIndex(ids, id) + 1) else rows[id]
  {
    map id | id in rows ::
      if id in ids && rows[id].scaleId == scaleId then rows[id].(order := FirstIndex(ids, id) + 1) else rows[id]
  }

  lemma PlacedStep(rows: map<string, Item>, scaleId: string, ids: seq<string>, id: string)
    requires id !in ids
    ensures Placed(rows, scaleId, ids + [id]) ==
      if id in rows && rows[id].scaleId == scaleId
      then Placed(rows, scaleId, ids)[id := rows[id].(order := |ids| + 1)] else Placed(rows, scaleId, ids)
  {
    IndexAfterAppend(ids, id);
    var before, after := Placed(rows, scaleId, ids), Placed(rows, scaleId, ids + [id]);
    forall x | x in rows && x != id ensures after[x] == before[x] {
    }
  }

  // One above the greatest position in the scale; positions in an empty scale start at 1.
  ghost predicate IsNextPosition(rows: map<string, Item>, scaleId: string, pos: int) {
    && (forall id :: id in ItemsOf(rows, scaleId) ==> rows[id].order < pos)
    && if ItemsOf(rows, scaleId) == {} then pos == 1
       else exists id :: id in ItemsOf(rows, scaleId) && rows[id].order == pos - 1
  }

  class Store {
    var rows: map<string, Item>

    method UpdateItemPosition(pos: int, id: string, scaleId: string)
      modifies this
      ensures rows == if id in old(rows) && old(rows)[id].scaleId == scaleId
                      then old(rows)[id := old(rows)[id].(order := pos)] else old(rows)
    {
      if id in rows && rows[id].scaleId == scaleId {
        rows := rows[id := rows[id].(order := pos)];
      }
    }

    // SELECT id FROM items WHERE scale_id = ? ORDER BY position ASC, id ASC
    method SelectIds(scaleId: string) returns (ids: seq<string>)
      ensures ids == ListingOf(rows, scaleId)
    {
      var left := ItemsOf(rows, scaleId);
      ids := [];
      while left != {}
        invariant left <= ItemsOf(rows, scaleId)
        invariant forall id :: id in ids <==> id in ItemsOf(rows, scaleId) - left
        invariant Sorted(rows, ids)
        decreases |left|
      {
        var id :| id in left;
        left := left - {id};
        ids := InsertId(rows, ids, id);
      }
      SortedOnce(rows, ids);
      assert Exactly(rows, scaleId, ids);
      IsListingOf(rows, scaleId, ids);
    }

    // SELECT COALESCE(MAX(position), 0) + 1 FROM items WHERE scale_id = ?
    method NextItemPosition(scaleId: string) returns (pos: int)
      ensures IsNextPosition(rows, scaleId, pos)
      ensures ItemsOf(rows, scaleId) == {} ==> pos == 1
      ensures forall id :: id in rows && rows[id].scaleId == scaleId ==> rows[id].order < pos
      ensures ItemsOf(rows, scaleId) != {} ==> exists id :: id in ItemsOf(rows, scaleId) && pos == rows[id].order + 1
    {
      var left := ItemsOf(rows, scaleId);
      if left == {} {
        return 1;
      }
      ghost var mine := left;
      var top :| top in left;
      left := left - {top};
      while left != {}
        invariant left <= mine && top in mine
        invariant forall id :: id in mine - left ==> rows[id].order <= rows[top].order
        decreases |left|
      {
        var id :| id in left;
        if rows[id].order > rows[top].order {
          top := id;
        }
        left := left - {id};
      }
      return rows[top].order + 1;
    }

    // An INSERT that fails because the id is taken is only logged.
    method AddItem(it: Item)
      modifies this
      ensures it.id in old(rows) ==> rows == old(rows)
      ensures it.id !in old(rows) && it.order > 0 ==> rows == old(rows)[it.id := it]
      ensures it.id !in old(rows) && it.order <= 0 ==>
        exists pos :: IsNextPosition(old(rows), it.scaleId, pos) && rows == old(rows)[it.id := it.(order := pos)]
      ensures it.id !in old(rows) && it.order <= 0 ==>
        ListingOf(rows, it.scaleId) == ListingOf(old(rows), it.scaleId) + [it.id]
    {
      var pos := it.order;
      if pos <= 0 {
        pos := NextItemPosition(it.scaleId);
      }
      if it.id in rows {
        return;
      }
      if it.order <= 0 {
        GreatestAppends(rows, it.(order := pos));
      }
      rows := rows[it.id := it.(order := pos)];
      assert it.order > 0 ==> it.(order := pos) == it;
    }

    method ReorderItems(scaleId: string, order: seq<string>) returns (ok: bool)
      modifies this
      ensures ok <==> Trim(scaleId) != ""
      ensures rows == if ok then Reorder(old(rows), scaleId, order) else old(rows)
    {
      if Trim(scaleId) == "" {
        return false;
      }
      var pos := 1;
      var seen: set<string> := {};
      ghost var placed: seq<string> := [];
      for i := 0 to |order|
        invariant placed == Distinct(Cleaned(order[..i]))
        invariant rows == Placed(old(rows), scaleId, placed)
        invariant pos == |placed| + 1
        invariant forall id :: id in seen <==> id in placed
      {
        var id := Trim(order[i]);
        CleanedStep(order, i);
        if id == "" || id in seen {
          DistinctStep(Cleaned(order[..i]), id);
          continue;
        }
        DistinctStep(Cleaned(order[..i]), id);
        PlacedStep(old(rows), scaleId, placed, id);
        UpdateItemPosition(pos, id, scaleId);
        seen := seen + {id};
        placed := placed + [id];
        pos := pos + 1;
      }
      assert order[..|order|] == order;
      var selected := SelectIds(scaleId);
      RemainderInOldOrder(old(rows), scaleId, placed);
      PlaceRemainder(scaleId, selected, pos, seen, old(rows), placed);
      return true;
    }

    // The loop over the remainder.
    method PlaceRemainder(scaleId: string, selected: seq<string>, from: int, seen: set<string>,
                          ghost rows0: map<string, Item>, ghost listed: seq<string>)
      requires NoDuplicates(selected)
      requires rows == Placed(rows0, scaleId, listed) && from == |listed| + 1
      requires forall id :: id in seen <==> id in listed
      modifies this
      ensures rows == Placed(rows0, scaleId, listed + Rest(selected, listed))
    {
      var pos := from;
      ghost var placed := listed;
      assert placed == listed + Rest(selected[..0], listed);
      for j := 0 to |selected|
        invariant placed == listed + Rest(selected[..j], listed)
        invariant rows == Placed(rows0, scaleId, placed) && pos == |placed| + 1
      {
        var id := selected[j];
        RestGrows(selected, listed, j);
        if id in seen {
          continue;
        }
        PlacedStep(rows0, scaleId, placed, id);
        UpdateItemPosition(pos, id, scaleId);
        placed := placed + [id];
        pos := pos + 1;
      }
      assert selected[..|selected|] == selected;
    }
  }

  lemma RestGrows(selected: seq<string>, listed: seq<string>, j: nat)
    requires j < |selected| && NoDuplicates(selected)
    ensures var placed := listed + Rest(selected[..j], listed);
            if selected[j] in listed then listed + Rest(selected[..j + 1], listed) == placed
            else selected[j] !in placed && listed + Rest(selected[..j + 1], listed) == placed + [selected[j]]
  {
    RestStep(selected, listed, j);
    assert selected[j] !in selected[..j];
  }

  // What ReorderItems leaves in the table.
  ghost function Reorder(rows: map<string, Item>, scaleId: string, order: seq<string>): map<string, Item> {
    var listed := Distinct(Cleaned(order));
    Placed(rows, scaleId, listed + Rest(ListingOf(rows, scaleId), listed))
  }

  // Reordering changes positions only, and only in rows of the scale.
  lemma ReorderMovesOnly(rows: map<string, Item>, scaleId: string, order: seq<string>, id: string)
    requires id in rows
    ensures
      var now := Reorder(rows, scaleId, order);
      && now.Keys == rows.Keys && now[id] == rows[id].(order := now[id].order)
      && (rows[id].scaleId != scaleId ==> now[id] == rows[id])
  {
  }

  method InsertId(rows: map<string, Item>, ids: seq<string>, id: string) returns (r: seq<string>)
    requires forall x :: x in ids ==> x in rows
    requires Sorted(rows, ids) && id in rows && id !in ids
    ensures forall x :: x in r <==> x in ids || x == id
    ensures Sorted(rows, r)
  {
    var k := |ids|;
    while k > 0 && KeyLess(rows[id].order, id, rows[ids[k - 1]].order, ids[k - 1])
      invariant 0 <= k <= |ids|
      invariant forall i :: k <= i < |ids| ==> KeyLess(rows[id].order, id, rows[ids[i]].order, ids[i])
    {
      k := k - 1;
    }
    r := ids[..k] + [id] + ids[k..];
    InsertSortedId(rows, ids, k, id);
    assert ids == ids[..k] + ids[k..];
  }

  lemma InsertSortedId(rows: map<string, Item>, ids: seq<string>, k: nat, id: string)
    requires forall x :: x in ids ==> x in rows
    requires Sorted(rows, ids) && id in rows && id !in ids && k <= |ids|
    requires forall i :: k <= i < |ids| ==> KeyLess(rows[id].order, id, rows[ids[i]].order, ids[i])
    requires k > 0 ==> !KeyLess(rows[id].order, id, rows[ids[k - 1]].order, ids[k - 1])
    ensures forall x :: x in ids[..k] + [id] + ids[k..] ==> x in rows
    ensures Sorted(rows, ids[..k] + [id] + ids[k..])
  {
    var r := ids[..k] + [id] + ids[k..];
    forall i | 0 <= i < k ensures KeyLess(rows[ids[i]].order, ids[i], rows[id].order, id) {
      KeyLessTotal(rows[ids[k - 1]].order, ids[k - 1], rows[id].order, id);
      if i < k - 1 {
        KeyLessTransitive(rows[ids[i]].order, ids[i], rows[ids[k - 1]].order, ids[k - 1], rows[id].order, id);
      }
    }
    forall i | 0 <= i < |r| ensures r[i] == if i < k then ids[i] else if i == k then id else ids[i - 1] {
    }
    forall i, j | 0 <= i < j < |r| ensures KeyLess(rows[r[i]].order, r[i], rows[r[j]].order, r[j]) {
    }
  }

  lemma SortedOnce(rows: map<string, Item>, ids: seq<string>)
    requires forall x :: x in ids ==> x in rows
    requires Sorted(rows, ids)
    ensures NoDuplicates(ids)
  {
    forall i, j | 0 <= i < j < |ids| ensures ids[i] != ids[j] {
      KeyLessTotal(rows[ids[i]].order, ids[i], rows[ids[j]].order, ids[j]);
    }
  }

  lemma DistinctStep(order: seq<string>, id: string)
    ensures Distinct(order + [id]) == if id in Distinct(order) then Distinct(order) else Distinct(order) + [id]
  {
    assert (order + [id])[..|order|] == order;
    MoreMembers(order, order, order + [id]);
  }

  // Members that are never mentioned do not matter.
  lemma {:induction false} MoreMembers(order: seq<string>, members: seq<string>, more: seq<string>)
    requires forall id :: id in order ==> (id in members <==> id in more)
    ensures Listed(order, members) == Listed(order, more)
  {
    if order != [] {
      var n := |order| - 1;
      assert order == order[..n] + [order[n]];
      MoreMembers(order[..n], members, more);
    }
  }

  // Half-way through, the unlisted items still come in their old relative order.
  lemma RemainderInOldOrder(rows: map<string, Item>, scaleId: string, listed: seq<string>)
    ensures var selected := ListingOf(Placed(rows, scaleId, listed), scaleId);
            NoDuplicates(selected) && Rest(selected, listed) == Rest(ListingOf(rows, scaleId), listed)
  {
    var now := Placed(rows, scaleId, listed);
    var selected, was := ListingOf(now, scaleId), ListingOf(rows, scaleId);
    ListingOfIsListing(now, scaleId);
    ListingOfIsListing(rows, scaleId);
    RestStaysSorted(now, selected, listed);
    RestStaysSorted(rows, was, listed);
    forall i, j | 0 <= i < j < |Rest(selected, listed)|
      ensures var r := Rest(selected, listed); KeyLess(rows[r[i]].order, r[i], rows[r[j]].order, r[j])
    {
      var r := Rest(selected, listed);
      assert r[i] in r && r[j] in r;
    }
    SortedSameElements(rows, Rest(selected, listed), Rest(was, listed));
  }

  // A position greater than every one in the scale puts the item at the end, so SQLite always appends.
  lemma GreatestAppends(rows: map<string, Item>, it: Item)
    requires it.id !in rows
    requires forall id :: id in ItemsOf(rows, it.scaleId) ==> rows[id].order < it.order
    ensures ListingOf(rows[it.id := it], it.scaleId) == ListingOf(rows, it.scaleId) + [it.id]
  {
    var list, after := ListingOf(rows, it.scaleId), rows[it.id := it];
    ListingOfIsListing(rows, it.scaleId);
    var longer := list + [it.id];
    forall i, j | 0 <= i < j < |longer|
      ensures longer[i] != longer[j] && KeyLess(after[longer[i]].order, longer[i], after[longer[j]].order, longer[j])
    {
      assert list[i] in list;
      if j < |list| {
        assert list[j] in list;
      }
    }
    assert Exactly(after, it.scaleId, longer);
    IsListingOf(after, it.scaleId, longer);
  }
}
