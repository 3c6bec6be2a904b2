// The list actions of scaleEditorReducer in frontend/src/pages/scale-editor/state.ts.
module EditorState {
  import opened Wrappers
  import opened Reordering
  import opened Filtering

  // None is an id that is undefined, of an entry or of a missing one.
  datatype Entry = Entry(id: Option<string>, data: string)

  datatype State = State(items: seq<Entry>, selected: Option<string>)

  // The ids there are, in the order of their entries.
  function EntryIds(items: seq<Entry>): seq<string> {
    if items == [] then []
    else
      var n := |items| - 1;
      if items[n].id.Some? then EntryIds(items[..n]) + [items[n].id.value] else EntryIds(items[..n])
  }

  lemma EntryIdsAppend(items: seq<Entry>, x: Entry)
    ensures EntryIds(items + [x]) == if x.id.Some? then EntryIds(items) + [x.id.value] else EntryIds(items)
  {
    assert (items + [x])[..|items|] == items;
  }

  lemma EntryIdsStep(items: seq<Entry>, n: nat)
    requires n < |items|
    ensures EntryIds(items[..n + 1]) == if items[n].id.Some? then EntryIds(items[..n]) + [items[n].id.value] else EntryIds(items[..n])
  {
    EntryIdsAppend(items[..n], items[n]);
    assert items[..n + 1] == items[..n] + [items[n]];
  }

  lemma {:induction false} EntryIdsConcat(xs: seq<Entry>, ys: seq<Entry>)
    ensures EntryIds(xs + ys) == EntryIds(xs) + EntryIds(ys)
  {
    if ys == [] {
      assert xs + ys == xs;
    } else {
      var n := |ys| - 1;
      assert ys == ys[..n] + [ys[n]];
      EntryIdsConcat(xs, ys[..n]);
      EntryIdsAppend(ys[..n], ys[n]);
      EntryIdsRegroup(xs, ys[..n], ys[n]);
    }
  }

  lemma Associative<T>(a: seq<T>, b: seq<T>, c: seq<T>)
    ensures (a + b) + c == a + (b + c)
  {
  }

  lemma EntryIdsRegroup(xs: seq<Entry>, ys: seq<Entry>, y: Entry)
    requires EntryIds(xs + ys) == EntryIds(xs) + EntryIds(ys)
    ensures EntryIds(xs + (ys + [y])) == EntryIds(xs) + (if y.id.Some? then EntryIds(ys) + [y.id.value] else EntryIds(ys))
  {
    assert xs + (ys + [y]) == (xs + ys) + [y];
    EntryIdsAppend(xs + ys, y);
    if y.id.Some? {
      Associative(EntryIds(xs), EntryIds(ys), [y.id.value]);
    }
  }

  // case 'reorderItems', for any list whatever: entries without an id, or with the empty one unless it is asked for,
  // disappear; of entries with one id the listed copy is the last.
  method ReorderItems(state: State, order: seq<string>) returns (next: State)
    ensures order == [] ==> next == state
    ensures order != [] ==>
      var ids := EntryIds(state.items);
      EntryIds(next.items) == Listed(order, ids) + Rest(ids, Listed(order, ids) + [""])
    ensures order != [] ==> forall x :: x in next.items ==> x.id.Some?
    // which entries: for a listed id the last one that has it, and behind them every other one with an id, as it stands
    ensures order != [] ==>
      var listed := Listed(order, EntryIds(state.items));
      exists front :: AreLast(state.items, listed, front) && next.items == front + Unlisted(state.items, listed)
    ensures forall x :: x in next.items ==> x in state.items
    ensures next.selected == state.selected
  {
    if order == [] {
      return state;
    }
    var nextItems, seen := PickListed(state.items, order);
    var rest := Unseen(state.items, seen, Listed(order, EntryIds(state.items)));
    EntryIdsConcat(nextItems, rest);
    next := state.(items := nextItems + rest);
  }

  // The first loop.
  method PickListed(items: seq<Entry>, order: seq<string>) returns (nextItems: seq<Entry>, seen: set<string>)
    ensures EntryIds(nextItems) == Listed(order, EntryIds(items))
    ensures forall id :: id in seen <==> id in Listed(order, EntryIds(items))
    ensures forall x :: x in nextItems ==> x in items && x.id.Some?
    ensures AreLast(items, Listed(order, EntryIds(items)), nextItems)
  {
    var lookup := Lookup(items);
    ghost var ids := EntryIds(items);
    nextItems, seen := [], {};
    for i := 0 to |order|
      invariant EntryIds(nextItems) == Listed(order[..i], ids)
      invariant forall id :: id in seen <==> id in Listed(order[..i], ids)
      invariant forall x :: x in nextItems ==> x in items && x.id.Some?
      invariant AreLast(items, Listed(order[..i], ids), nextItems)
    {
      ListedStep(order, ids, i);
      var itemId := Some(order[i]);
      if itemId in lookup && order[i] !in seen {
        EntryIdsAppend(nextItems, lookup[itemId]);
        OneMoreLast(items, Listed(order[..i], ids), nextItems, order[i], lookup[itemId]);
        nextItems := nextItems + [lookup[itemId]];
        seen := seen + {order[i]};
      }
    }
    assert order[..|order|] == order;
  }

  // new Map(items.map(it => [it.id, it])): a later entry replaces an earlier one of the same id.
  method Lookup(items: seq<Entry>) returns (lookup: map<Option<string>, Entry>)
    ensures forall id :: Some(id) in lookup <==> id in EntryIds(items)
    ensures forall key :: key in lookup ==> lookup[key].id == key && lookup[key] in items && LastOfItsId(items, lookup[key])
  {
    lookup := map[];
    for i := 0 to |items|
      invariant forall id :: Some(id) in lookup <==> id in EntryIds(items[..i])
      invariant forall key :: key in lookup ==> lookup[key].id == key && lookup[key] in items && LastOfItsId(items[..i], lookup[key])
    {
      EntryIdsStep(items, i);
      forall key | key in lookup && key != items[i].id ensures LastOfItsId(items[..i + 1], lookup[key]) {
        StaysLast(items, i, lookup[key]);
      }
      assert items[..i + 1][i] == items[i];
      assert LastOfItsId(items[..i + 1], items[i]);
      lookup := lookup[items[i].id := items[i]];
    }
    assert items[..|items|] == items;
  }

  // No entry after it has its id.
  predicate LastOfItsId(items: seq<Entry>, x: Entry) {
    exists i :: 0 <= i < |items| && items[i] == x && forall j :: i < j < |items| ==> items[j].id != x.id
  }

  // One entry per id, the last that has it.
  predicate AreLast(items: seq<Entry>, ids: seq<string>, entries: seq<Entry>) {
    |entries| == |ids| && forall j :: 0 <= j < |ids| ==> entries[j].id == Some(ids[j]) && LastOfItsId(items, entries[j])
  }

  lemma OneMoreLast(items: seq<Entry>, ids: seq<string>, entries: seq<Entry>, id: string, x: Entry)
    requires AreLast(items, ids, entries) && x.id == Some(id) && LastOfItsId(items, x)
    ensures AreLast(items, ids + [id], entries + [x])
  {
  }

  lemma StaysLast(items: seq<Entry>, n: nat, x: Entry)
    requires n < |items| && LastOfItsId(items[..n], x) && items[n].id != x.id
    ensures LastOfItsId(items[..n + 1], x)
  {
    var front, more := items[..n], items[..n + 1];
    var i :| 0 <= i < n && front[i] == x && forall j :: i < j < n ==> front[j].id != x.id;
    assert more[i] == x;
    forall j | i < j < n + 1 ensures more[j].id != x.id {
      assert j < n ==> more[j] == front[j];
    }
  }

  // The entries with a non-empty id that is not listed.
  function Unlisted(items: seq<Entry>, listed: seq<string>): seq<Entry> {
    if items == [] then []
    else
      var n := |items| - 1;
      if items[n].id.Some? && items[n].id.value != "" && items[n].id.value !in listed then Unlisted(items[..n], listed) + [items[n]]
      else Unlisted(items[..n], listed)
  }

  lemma {:induction false} UnlistedPicked(items: seq<Entry>, listed: seq<string>, keep: Entry -> bool) returns (at: seq<int>)
    requires forall e :: keep(e) <==> e.id != None && e.id != Some("") && forall id :: e.id == Some(id) ==> id !in listed
    ensures Picks(items, keep, Unlisted(items, listed), at)
  {
    if items == [] {
      at := [];
    } else {
      var before := UnlistedPicked(items[..|items| - 1], listed, keep);
      at := PicksOneMore(items, keep, Unlisted(items[..|items| - 1], listed), before);
    }
  }

  // The second loop.
  method Unseen(items: seq<Entry>, seen: set<string>, ghost listed: seq<string>) returns (rest: seq<Entry>)
    requires forall id :: id in seen <==> id in listed
    ensures EntryIds(rest) == Rest(EntryIds(items), listed + [""])
    ensures forall x :: x in rest ==> x in items && x.id.Some?
    ensures rest == Unlisted(items, listed)
  {
    rest := [];
    for i := 0 to |items|
      invariant rest == Unlisted(items[..i], listed)
      invariant EntryIds(rest) == Rest(EntryIds(items[..i]), listed + [""])
      invariant forall x :: x in rest ==> x in items && x.id.Some?
    {
      EntryIdsStep(items, i);
      assert items[..i + 1][..i] == items[..i];
      var it := items[i];
      if it.id == None || it.id == Some("") {
        if it.id.Some? {
          RestAppend(EntryIds(items[..i]), "", listed + [""]);
        }
        continue;
      }
      RestAppend(EntryIds(items[..i]), it.id.value, listed + [""]);
      if it.id.value !in seen {
        EntryIdsAppend(rest, it);
        rest := rest + [it];
      }
    }
    assert items[..|items|] == items;
  }

  lemma RestAppend(ids: seq<string>, id: string, taken: seq<string>)
    ensures Rest(ids + [id], taken) == if id in taken then Rest(ids, taken) else Rest(ids, taken) + [id]
  {
    assert (ids + [id])[..|ids|] == ids;
  }

  // The entries of any other id, and those without one.
  function OtherEntries(items: seq<Entry>, itemId: string): seq<Entry> {
    if items == [] then []
    else
      var n := |items| - 1;
      if items[n].id == Some(itemId) then OtherEntries(items[..n], itemId) else OtherEntries(items[..n], itemId) + [items[n]]
  }

  // case 'removeItem'
  method RemoveItem(state: State, itemId: string) returns (next: State)
    ensures next.items == OtherEntries(state.items, itemId)
    ensures next.selected == if state.selected == Some(itemId) then None else state.selected
  {
    var kept: seq<Entry> := [];
    for i := 0 to |state.items|
      invariant kept == OtherEntries(state.items[..i], itemId)
    {
      assert state.items[..i + 1][..i] == state.items[..i];
      if state.items[i].id != Some(itemId) {
        kept := kept + [state.items[i]];
      }
    }
    assert state.items[..|state.items|] == state.items;
    next := State(kept, if state.selected == Some(itemId) then None else state.selected);
  }

  lemma {:induction false} OthersPicked(items: seq<Entry>, itemId: string, keep: Entry -> bool) returns (at: seq<int>)
    requires forall e :: keep(e) <==> e.id != Some(itemId)
    ensures Picks(items, keep, OtherEntries(items, itemId), at)
  {
    if items == [] {
      at := [];
    } else {
      var before := OthersPicked(items[..|items| - 1], itemId, keep);
      at := PicksOneMore(items, keep, OtherEntries(items[..|items| - 1], itemId), before);
    }
  }

  // Removing takes one id out of the list and moves nothing.
  lemma {:induction false} RemovedIds(items: seq<Entry>, itemId: string)
    ensures EntryIds(OtherEntries(items, itemId)) == Rest(EntryIds(items), [itemId])
  {
    if items != [] {
      var n := |items| - 1;
      RemovedIds(items[..n], itemId);
      EntryIdsAppend(OtherEntries(items[..n], itemId), items[n]);
      if items[n].id.Some? {
        RestAppend(EntryIds(items[..n]), items[n].id.value, [itemId]);
      }
    }
  }

  // On the lists the server sends, with every id present and used once, the reducer reorders like the stores do.
  lemma EditorReorders(ids: seq<string>, order: seq<string>)
    requires "" !in ids
    ensures Listed(order, ids) + Rest(ids, Listed(order, ids) + [""]) == Reordered(ids, order)
    ensures Reordered(ids, []) == ids
  {
    SameTaken(ids, Listed(order, ids) + [""], Listed(order, ids));
    NothingTaken(ids);
  }

  lemma {:induction false} SameTaken(ids: seq<string>, taken: seq<string>, taken': seq<string>)
    requires forall id :: id in ids ==> (id in taken <==> id in taken')
    ensures Rest(ids, taken) == Rest(ids, taken')
  {
    if ids != [] {
      var n := |ids| - 1;
      assert ids == ids[..n] + [ids[n]];
      SameTaken(ids[..n], taken, taken');
    }
  }

  lemma {:induction false} NothingTaken(ids: seq<string>)
    ensures Rest(ids, []) == ids
  {
    if ids != [] {
      NothingTaken(ids[..|ids| - 1]);
      assert ids == ids[..|ids| - 1] + [ids[|ids| - 1]];
    }
  }
}
