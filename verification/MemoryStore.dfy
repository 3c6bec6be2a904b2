// memoryStore of internal/api/store.go: a map of items and, per scale, a sorted list of the same item objects.
// Every method keeps the two in step and does to the abstract state what Catalogue says.
module MemoryStore {
  import opened Survey
  import opened Listing
  import opened Reordering
  import opened Envelopes
  import opened Catalogue
  import opened RealSums

  class StoredItem {
    const id: string
    const scaleId: string
    var order: int
    var body: Body

    constructor (it: Item)
      ensures Row() == it
    {
      id, scaleId, order, body := it.id, it.scaleId, it.order, it.body;
    }

    function Row(): Item
      reads this
    {
      Item(id, scaleId, order, body)
    }
  }

  class StoredResponse {
    const scaleId: string
    const responseId: string
    const ciphertext: Bytes
    const nonce: Bytes
    var encDek: seq<Envelope>

    constructor (entry: Sealed)
      ensures Row() == entry
    {
      scaleId, responseId := entry.scaleId, entry.responseId;
      ciphertext, nonce, encDek := entry.record.ciphertext, entry.record.nonce, entry.record.encDek;
    }

    function Row(): Sealed
      reads this
    {
      Sealed(scaleId, responseId, Record(ciphertext, nonce, encDek))
    }
  }

  // Distinct objects and what they hold.
  ghost predicate Mirrors(objects: seq<StoredResponse>, entries: seq<Sealed>)
    reads objects
  {
    && |entries| == |objects|
    && (forall i :: 0 <= i < |objects| ==>
         && entries[i].scaleId == objects[i].scaleId && entries[i].responseId == objects[i].responseId
         && entries[i].record == Record(objects[i].ciphertext, objects[i].nonce, objects[i].encDek))
    && (forall i, j :: 0 <= i < j < |objects| ==> objects[i] != objects[j])
  }

  // The next object is none of the ones taken over before.
  lemma MirrorsNewcomer(out: seq<StoredResponse>, entries: seq<Sealed>, all: seq<StoredResponse>, rows: seq<Sealed>, i: nat)
    requires Mirrors(out, entries) && Mirrors(all, rows) && i < |all|
    requires forall x :: x in out ==> x in all[..i]
    ensures Mirrors(out + [all[i]], entries + [rows[i]])
    ensures forall x :: x in out + [all[i]] ==> x in all[..i + 1]
    ensures all[i].scaleId == rows[i].scaleId
  {
    NewcomerDiffers(out, all, i);
    assert all[..i + 1] == all[..i] + [all[i]];
  }

  lemma MirrorsWithout(objects: seq<StoredResponse>, entries: seq<Sealed>, i: nat)
    requires Mirrors(objects, entries) && i < |objects|
    ensures Mirrors(objects[..i] + objects[i + 1..], entries[..i] + entries[i + 1..])
    ensures forall x :: x in objects[..i] + objects[i + 1..] ==> x in objects
  {
    var fewer := objects[..i] + objects[i + 1..];
    assert forall j :: 0 <= j < |fewer| ==> fewer[j] == objects[if j < i then j else j + 1];
  }

  function Ids(list: seq<StoredItem>): (r: seq<string>)
    ensures |r| == |list|
    ensures forall i :: 0 <= i < |list| ==> r[i] == list[i].id
  {
    seq(|list|, i requires 0 <= i < |list| => list[i].id)
  }

  ghost predicate SortedObjects(list: seq<StoredItem>)
    reads list
  {
    forall i, j :: 0 <= i < j < |list| ==> KeyLess(list[i].order, list[i].id, list[j].order, list[j].id)
  }

  // No object before a smaller one; objects of one id may follow each other.
  ghost predicate WeaklySorted(list: seq<StoredItem>)
    reads list
  {
    forall i, j :: 0 <= i < j < |list| ==> !KeyLess(list[j].order, list[j].id, list[i].order, list[i].id)
  }

  // sort.SliceStable with the (Order, ID) comparison, as an insertion sort.
  method SortItems(list: seq<StoredItem>) returns (out: seq<StoredItem>)
    ensures multiset(out) == multiset(list) && WeaklySorted(out)
    ensures NoDuplicates(Ids(list)) ==> SortedObjects(out)
  {
    out := [];
    for i := 0 to |list|
      invariant multiset(out) == multiset(list[..i]) && WeaklySorted(out)
    {
      out := Insert(out, list[i]);
      assert list[..i + 1] == list[..i] + [list[i]];
    }
    assert list[..|list|] == list;
    if NoDuplicates(Ids(list)) {
      SortedStrictly(list, out);
    }
  }

  method Insert(list: seq<StoredItem>, x: StoredItem) returns (out: seq<StoredItem>)
    requires WeaklySorted(list)
    ensures multiset(out) == multiset(list) + multiset{x} && WeaklySorted(out)
  {
    var k := |list|;
    while k > 0 && KeyLess(x.order, x.id, list[k - 1].order, list[k - 1].id)
      invariant 0 <= k <= |list|
      invariant forall i :: k <= i < |list| ==> KeyLess(x.order, x.id, list[i].order, list[i].id)
    {
      k := k - 1;
    }
    InsertSorted(list, k, x);
    out := list[..k] + [x] + list[k..];
    assert list == list[..k] + list[k..];
  }

  lemma InsertSorted(list: seq<StoredItem>, k: nat, x: StoredItem)
    requires WeaklySorted(list) && k <= |list|
    requires forall i :: k <= i < |list| ==> KeyLess(x.order, x.id, list[i].order, list[i].id)
    requires k > 0 ==> !KeyLess(x.order, x.id, list[k - 1].order, list[k - 1].id)
    ensures WeaklySorted(list[..k] + [x] + list[k..])
  {
    var out := list[..k] + [x] + list[k..];
    forall i | 0 <= i < k ensures !KeyLess(x.order, x.id, list[i].order, list[i].id) {
      if i < k - 1 {
        KeyNotLessTransitive(list[i].order, list[i].id, list[k - 1].order, list[k - 1].id, x.order, x.id);
      }
    }
    forall i | k <= i < |list| ensures !KeyLess(list[i].order, list[i].id, x.order, x.id) {
      KeyLessTotal(x.order, x.id, list[i].order, list[i].id);
    }
    forall i, j | 0 <= i < j < |out| ensures !KeyLess(out[j].order, out[j].id, out[i].order, out[i].id) {
      assert out[i] == if i < k then list[i] else if i == k then x else list[i - 1];
      assert out[j] == if j < k then list[j] else if j == k then x else list[j - 1];
    }
  }

  lemma SortedStrictly(list: seq<StoredItem>, out: seq<StoredItem>)
    requires multiset(out) == multiset(list) && WeaklySorted(out) && NoDuplicates(Ids(list))
    ensures SortedObjects(out)
  {
    IdsShuffled(list, out);
    forall i, j | 0 <= i < j < |out| ensures KeyLess(out[i].order, out[i].id, out[j].order, out[j].id) {
      assert Ids(out)[i] != Ids(out)[j];
      KeyLessTotal(out[i].order, out[i].id, out[j].order, out[j].id);
    }
  }

  // Distinct ids stay distinct however the objects are shuffled.
  lemma {:induction false} IdsShuffled(list: seq<StoredItem>, out: seq<StoredItem>)
    requires multiset(out) == multiset(list) && NoDuplicates(Ids(list))
    ensures NoDuplicates(Ids(out))
    decreases |out|
  {
    if out != [] {
      var n := |out| - 1;
      var k := RemoveLast(out, list);
      OthersDiffer(list, k);
      IdsShuffled(list[..k] + list[k + 1..], out[..n]);
      SameObjects(out[..n], list[..k] + list[k + 1..]);
      LastDiffers(out);
    }
  }

  lemma LastDiffers(out: seq<StoredItem>)
    requires out != [] && NoDuplicates(Ids(out[..|out| - 1]))
    requires forall x :: x in out[..|out| - 1] ==> x.id != out[|out| - 1].id
    ensures NoDuplicates(Ids(out))
  {
    var front := out[..|out| - 1];
    forall i, j | 0 <= i < j < |out| ensures Ids(out)[i] != Ids(out)[j] {
      assert front[i] in front;
      assert j < |front| ==> Ids(front)[i] != Ids(front)[j];
    }
  }

  lemma OthersDiffer(list: seq<StoredItem>, k: nat)
    requires NoDuplicates(Ids(list)) && k < |list|
    ensures NoDuplicates(Ids(list[..k] + list[k + 1..]))
    ensures forall x :: x in list[..k] + list[k + 1..] ==> x.id != list[k].id
  {
    var fewer := list[..k] + list[k + 1..];
    forall i | 0 <= i < |fewer|
      ensures Ids(fewer)[i] == Ids(list)[if i < k then i else i + 1] && fewer[i].id != list[k].id
    {
      var j := if i < k then i else i + 1;
      assert fewer[i] == list[j] && Ids(list)[j] != Ids(list)[k];
    }
  }

  function ListAt(index: map<string, seq<StoredItem>>, scaleId: string): seq<StoredItem> {
    if scaleId in index then index[scaleId] else []
  }

  // list holds the map's own objects, and is the one sorted list of the scale's items.
  ghost predicate ListOk(items: map<string, StoredItem>, rows: map<string, Item>, scaleId: string, list: seq<StoredItem>) {
    && (forall x :: x in list ==> x.id in items && items[x.id] == x)
    && Ids(list) == ListingOf(rows, scaleId)
  }

  ghost predicate Indexed(items: map<string, StoredItem>, index: map<string, seq<StoredItem>>, rows: map<string, Item>) {
    && items.Keys == rows.Keys
    && (forall id :: id in items ==> items[id].id == id && items[id].scaleId == rows[id].scaleId)
    && (forall s :: ListOk(items, rows, s, ListAt(index, s)))
  }

  // Replacing the list of the one scale whose items changed.
  lemma IndexRebuilt(items: map<string, StoredItem>, index: map<string, seq<StoredItem>>, rows: map<string, Item>,
                     items': map<string, StoredItem>, rows': map<string, Item>, scaleId: string, list: seq<StoredItem>)
    requires Indexed(items, index, rows)
    requires ChangedOnly(items, rows, items', rows', scaleId)
    requires ListOk(items', rows', scaleId, list)
    ensures Indexed(items', index[scaleId := list], rows')
  {
    var index' := index[scaleId := list];
    forall s ensures ListOk(items', rows', s, ListAt(index', s)) {
      if s != scaleId {
        assert ListOk(items, rows, s, ListAt(index, s));
        IsListingOf(rows, s, Ids(ListAt(index, s)));
        OtherScaleUntouched(rows, rows', s, Ids(ListAt(index, s)));
        forall x | x in ListAt(index, s) ensures x.id in items' && items'[x.id] == x {
          var i :| 0 <= i < |ListAt(index, s)| && ListAt(index, s)[i] == x;
          assert Ids(ListAt(index, s))[i] == x.id;
        }
      }
    }
  }

  lemma IndexLength(items: map<string, StoredItem>, index: map<string, seq<StoredItem>>, rows: map<string, Item>, scaleId: string)
    requires Indexed(items, index, rows)
    ensures Ids(ListAt(index, scaleId)) == ListingOf(rows, scaleId)
    ensures |ListAt(index, scaleId)| == |ItemsOf(rows, scaleId)|
  {
    assert ListOk(items, rows, scaleId, ListAt(index, scaleId));
    ListingOfIsListing(rows, scaleId);
  }

  lemma IndexFacts(items: map<string, StoredItem>, index: map<string, seq<StoredItem>>, rows: map<string, Item>, scaleId: string)
    requires Indexed(items, index, rows)
    ensures var list := ListAt(index, scaleId);
            && (forall x :: x in list ==> x.id in items && items[x.id] == x)
            && Exactly(rows, scaleId, Ids(list)) && NoDuplicates(Ids(list))
            && IsListing(rows, scaleId, Ids(list))
  {
    assert ListOk(items, rows, scaleId, ListAt(index, scaleId));
    IsListingOf(rows, scaleId, Ids(ListAt(index, scaleId)));
  }

  class Store {
    var scales: set<string>
    var items: map<string, StoredItem>
    var itemsByScale: map<string, seq<StoredItem>>
    var participants: map<string, string>
    var responses: seq<Response>
    var e2ee: seq<StoredResponse>

    ghost var rows: map<string, Item>  // what the item objects hold
    ghost var sealed: seq<Sealed>  // what the encrypted responses hold

    ghost function ItemObjects(): set<StoredItem>
      reads this
    {
      set id | id in items :: items[id]
    }

    ghost predicate Mirrored()
      reads this, ItemObjects()
    {
      forall id :: id in items ==> id in rows && rows[id] == Item(items[id].id, items[id].scaleId, items[id].order, items[id].body)
    }

    // What the operations on encrypted responses keep: distinct objects, mirrored by sealed.
    ghost predicate SealedMirrored()
      reads this, e2ee
    {
      Mirrors(e2ee, sealed)
    }

    ghost function Abs(): State
      reads this
    {
      State(scales, rows, participants, responses, sealed)
    }

    // What the item operations keep: the map and the per-scale lists hold the same objects, and every list is the one
    // sorted, duplicate-free list of its scale's items.
    ghost predicate Valid()
      reads this, ItemObjects()
    {
      Mirrored() && Indexed(items, itemsByScale, rows)
    }

    constructor ()
      ensures Valid() && SealedMirrored() && Abs() == Catalogue.EMPTY
    {
      scales, items, itemsByScale, participants, responses, e2ee := {}, map[], map[], map[], [], [];
      rows, sealed := map[], [];
    }

    method ListItems(scaleId: string) returns (out: seq<StoredItem>)
      requires Valid()
      ensures Ids(out) == ListingOf(rows, scaleId)
      ensures forall x :: x in out ==> x.id in items && items[x.id] == x
    {
      var src := ListAt(itemsByScale, scaleId);
      IndexFacts(items, itemsByScale, rows, scaleId);
      out := SortItems(src);
      SortedListOk(items, rows, scaleId, src, out);
    }

    method AddScale(scaleId: string)
      requires Valid()
      modifies this`scales
      ensures Valid() && Abs() == Catalogue.Apply(old(Abs()), AddScaleOp(scaleId))
    {
      scales := scales + {scaleId};
    }

    // Sorts a scale's list and puts it back, once the rows have changed from the ones the index was built for.
    method Resort(scaleId: string, list: seq<StoredItem>, ghost items0: map<string, StoredItem>, ghost rows0: map<string, Item>)
      requires Mirrored() && Indexed(items0, itemsByScale, rows0)
      requires Sortable(items0, rows0, items, rows, scaleId, list)
      modifies this`itemsByScale
      ensures Mirrored() && Indexed(items, itemsByScale, rows)
    {
      var sorted := SortItems(list);
      SortedListOk(items, rows, scaleId, list, sorted);
      IndexRebuilt(items0, itemsByScale, rows0, items, rows, scaleId, sorted);
      itemsByScale := itemsByScale[scaleId := sorted];
    }

    // What adding keeps whatever the id: every id holds an object of that id.
    ghost predicate Kept()
      reads this, ItemObjects()
    {
      Mirrored() && items.Keys == rows.Keys && forall id :: id in items ==> items[id].id == id
    }

    ghost predicate Stale()
      reads this
    {
      ShowsOthers(items, itemsByScale)
    }

    // The store has not seen the object yet.
    ghost predicate Unknown(it: StoredItem)
      reads this
    {
      it !in ItemObjects() && forall s :: it !in ListAt(itemsByScale, s)
    }

    lemma UnknownIfNotHeld(it: StoredItem)
      requires Valid() && it !in ItemObjects()
      ensures Unknown(it)
    {
      forall s ensures it !in ListAt(itemsByScale, s) {
        assert ListOk(items, rows, s, ListAt(itemsByScale, s));
      }
    }

    method AddItem(it: StoredItem)
      requires Kept() && Unknown(it)
      modifies this`items, this`itemsByScale, this`rows, it`order
      ensures Kept()
      ensures it.order == if old(it.order) <= 0 then |old(ListAt(itemsByScale, it.scaleId))| + 1 else old(it.order)
      ensures items == old(items)[it.id := it] && rows == old(rows)[it.id := it.Row()]
      ensures multiset(ListAt(itemsByScale, it.scaleId)) == multiset(old(ListAt(itemsByScale, it.scaleId))) + multiset{it}
      ensures forall s :: s != it.scaleId ==> ListAt(itemsByScale, s) == old(ListAt(itemsByScale, s))
      ensures old(Valid()) ==> (Valid() <==> it.id !in old(items))
      ensures old(Valid()) && it.id in old(items) ==> Stale()
      ensures old(Valid()) && it.id !in old(items) ==> rows == Catalogue.AddItem(old(Abs()), old(it.Row())).rows
      ensures old(Stale()) ==> Stale()
    {
      ghost var sorted := Enlist(it);
      AfterAdding(old(items), old(itemsByScale), old(Abs()), old(it.Row()), it, rows, sorted);
    }

    // The map, the list and the sorting, whatever the store looked like.
    method Enlist(it: StoredItem) returns (sorted: seq<StoredItem>)
      requires Kept() && Unknown(it)
      modifies this`items, this`itemsByScale, this`rows, it`order
      ensures Kept()
      ensures it.order == if old(it.order) <= 0 then |old(ListAt(itemsByScale, it.scaleId))| + 1 else old(it.order)
      ensures it.body == old(it.body)
      ensures items == old(items)[it.id := it] && rows == old(rows)[it.id := it.Row()]
      ensures itemsByScale == old(itemsByScale)[it.scaleId := sorted]
      ensures multiset(sorted) == multiset(old(ListAt(itemsByScale, it.scaleId)) + [it])
      ensures multiset(ListAt(itemsByScale, it.scaleId)) == multiset(old(ListAt(itemsByScale, it.scaleId))) + multiset{it}
      ensures forall s :: s != it.scaleId ==> ListAt(itemsByScale, s) == old(ListAt(itemsByScale, s))
      ensures NoDuplicates(Ids(old(ListAt(itemsByScale, it.scaleId)) + [it])) ==> SortedObjects(sorted)
    {
      var list := ListAt(itemsByScale, it.scaleId) + [it];
      Register(it, |list|);
      sorted := SortItems(list);
      itemsByScale := itemsByScale[it.scaleId := sorted];
    }

    method Register(it: StoredItem, position: nat)
      requires Kept() && it !in ItemObjects()
      modifies this`items, this`rows, it`order
      ensures items == old(items)[it.id := it]
      ensures it.order == if old(it.order) <= 0 then position else old(it.order)
      ensures it.body == old(it.body)
      ensures rows == old(rows)[it.id := it.Row()]
      ensures Kept()
    {
      items := items[it.id := it];
      if it.order <= 0 {
        it.order := position;
      }
      rows := rows[it.id := it.Row()];
    }

    method UpdateItem(patch: Item) returns (ok: bool)
      requires Valid()
      modifies this`itemsByScale, this`rows, ItemObjects()`order, ItemObjects()`body
      ensures Valid() && rows == Catalogue.UpdateItem(old(Abs()), patch).rows
      ensures ok <==> patch.id in old(items)
    {
      if patch.id !in items {
        return false;
      }
      var stored := items[patch.id];
      var list := ListAt(itemsByScale, stored.scaleId);
      Patch(stored, patch);
      ListAfterPatch(items, itemsByScale, old(rows), patch.id, rows);
      if |list| > 1 {
        Resort(stored.scaleId, list, items, old(rows));
      } else {
        SortedListOk(items, rows, stored.scaleId, list, list);
        IndexRebuilt(items, itemsByScale, old(rows), items, rows, stored.scaleId, list);
        assert itemsByScale[stored.scaleId := list] == itemsByScale;
      }
      return true;
    }

    method Patch(stored: StoredItem, patch: Item)
      requires Mirrored() && patch.id in items && items[patch.id] == stored
      requires items.Keys == rows.Keys && forall id :: id in items ==> items[id].id == id
      modifies this`rows, stored`order, stored`body
      ensures rows == old(rows)[patch.id := MergeItem(old(rows)[patch.id], patch)]
      ensures Mirrored()
    {
      PatchBody(stored, patch.body);
      if patch.order > 0 {
        stored.order := patch.order;
      }
      rows := rows[patch.id := stored.Row()];
    }

    // One field after the other, as far as the patch gives it.
    method PatchBody(stored: StoredItem, patch: Body)
      modifies stored`body
      ensures stored.body == MergeBody(old(stored.body), patch)
    {
      PatchTexts(stored, patch);
      stored.body := stored.body.(reverseScored := patch.reverseScored);
      PatchBounds(stored, patch);
      stored.body := stored.body.(required := patch.required);
      if patch.itemType == "likert" || patch.likertShowNumbers || (!patch.likertShowNumbers && stored.body.likertShowNumbers) {
        stored.body := stored.body.(likertShowNumbers := patch.likertShowNumbers);
      }
    }

    method PatchTexts(stored: StoredItem, patch: Body)
      modifies stored`body
      ensures stored.body == old(stored.body).(
        stem := if patch.stem.Some? then patch.stem else old(stored.body.stem),
        itemType := if patch.itemType != "" then patch.itemType else old(stored.body.itemType),
        options := if patch.options.Some? then patch.options else old(stored.body.options),
        placeholder := if patch.placeholder.Some? then patch.placeholder else old(stored.body.placeholder),
        likertLabels := if patch.likertLabels.Some? then patch.likertLabels else old(stored.body.likertLabels))
    {
      if patch.stem.Some? {
        stored.body := stored.body.(stem := patch.stem);
      }
      if patch.itemType != "" {
        stored.body := stored.body.(itemType := patch.itemType);
      }
      if patch.options.Some? {
        stored.body := stored.body.(options := patch.options);
      }
      if patch.placeholder.Some? {
        stored.body := stored.body.(placeholder := patch.placeholder);
      }
      if patch.likertLabels.Some? {
        stored.body := stored.body.(likertLabels := patch.likertLabels);
      }
    }

    method PatchBounds(stored: StoredItem, patch: Body)
      modifies stored`body
      ensures stored.body == old(stored.body).(
        min := if patch.min != 0 then patch.min else old(stored.body.min),
        max := if patch.max != 0 then patch.max else old(stored.body.max),
        step := if patch.step != 0 then patch.step else old(stored.body.step))
    {
      if patch.min != 0 {
        stored.body := stored.body.(min := patch.min);
      }
      if patch.max != 0 {
        stored.body := stored.body.(max := patch.max);
      }
      if patch.step != 0 {
        stored.body := stored.body.(step := patch.step);
      }
    }

    method DeleteItem(id: string) returns (ok: bool)
      requires Valid()
      modifies this`items, this`itemsByScale, this`rows, this`responses
      ensures Valid() && rows == Catalogue.DeleteItem(old(Abs()), id).rows
      ensures responses == Catalogue.DeleteItem(old(Abs()), id).responses
      ensures items == old(items) - {id}
      ensures ok <==> id in old(items)
    {
      if id !in items {
        return false;
      }
      var it := items[id];
      items := items - {id};
      rows := rows - {id};
      Unlist(id, it.scaleId, old(items), old(Abs()));
      responses := AnswersToOthers(responses, {id});
      return true;
    }

    // Takes a deleted item out of its scale's list.
    method Unlist(id: string, scaleId: string, ghost items0: map<string, StoredItem>, ghost st0: State)
      requires Indexed(items0, itemsByScale, st0.rows)
      requires id in items0 && items0[id].scaleId == scaleId
      requires items == items0 - {id} && rows == st0.rows - {id}
      modifies this`itemsByScale
      ensures Indexed(items, itemsByScale, rows)
    {
      var list := ListAt(itemsByScale, scaleId);
      ListHolds(items0, itemsByScale, st0.rows, id);
      if |list| > 0 {
        var rest := Without(list, id);
        ListAfterDelete(items0, itemsByScale, st0, id, rest);
        IndexRebuilt(items0, itemsByScale, st0.rows, items, rows, scaleId, rest);
        itemsByScale := itemsByScale[scaleId := rest];
      }
    }

    method DeleteScale(scaleId: string) returns (ok: bool)
      requires Valid()
      modifies this`scales, this`items, this`itemsByScale, this`rows, this`responses
      ensures Valid() && rows == Catalogue.DeleteScale(old(Abs()), scaleId).rows
      ensures responses == Catalogue.DeleteScale(old(Abs()), scaleId).responses
      ensures scales == Catalogue.DeleteScale(old(Abs()), scaleId).scales
      ensures items == if ok then old(items) - ItemsOf(old(rows), scaleId) else old(items)
      ensures ok <==> scaleId in old(scales)
    {
      if scaleId !in scales {
        return false;
      }
      var itemIds := Unstock(scaleId);
      scales := scales - {scaleId};
      responses := AnswersToOthers(responses, itemIds);
      return true;
    }

    // Drops a scale's list and the items on it.
    method Unstock(scaleId: string) returns (itemIds: set<string>)
      requires Mirrored() && Indexed(items, itemsByScale, rows)
      modifies this`items, this`itemsByScale, this`rows
      ensures itemIds == ItemsOf(old(rows), scaleId)
      ensures rows == old(rows) - itemIds && items == old(items) - itemIds
      ensures Mirrored() && Indexed(items, itemsByScale, rows)
    {
      itemIds := Forget(ListAt(itemsByScale, scaleId));
      ListedIdsAreItems(old(items), itemsByScale, old(rows), scaleId, itemIds);
      IndexDropped(old(items), itemsByScale, old(rows), scaleId);
      rows := rows - itemIds;
      itemsByScale := itemsByScale - {scaleId};
    }

    method Forget(list: seq<StoredItem>) returns (itemIds: set<string>)
      modifies this`items
      ensures itemIds == (set j | 0 <= j < |list| :: list[j].id)
      ensures items == old(items) - itemIds
    {
      itemIds := {};
      for i := 0 to |list|
        invariant itemIds == set j | 0 <= j < i :: list[j].id
        invariant items == old(items) - itemIds
      {
        itemIds := itemIds + {list[i].id};
        items := items - {list[i].id};
      }
    }

    method ReorderItems(scaleId: string, order: seq<string>) returns (ok: bool)
      requires Valid()
      modifies this`itemsByScale, this`rows, ItemObjects()`order
      ensures Valid() && rows == Catalogue.Reorder(old(Abs()), scaleId, order).rows
      ensures ok <==> ListingOf(old(rows), scaleId) != []
    {
      var list := ListAt(itemsByScale, scaleId);
      IndexLength(items, itemsByScale, rows, scaleId);
      if |list| == 0 {
        assert Renumbered(rows, Reordered([], order)) == rows;
        return false;
      }
      Renumber(scaleId, order, list);
      ListAfterRenumbering(items, itemsByScale, old(rows), scaleId, Reordered(Ids(list), order));
      Resort(scaleId, list, items, old(rows));
      return true;
    }

    method Renumber(scaleId: string, order: seq<string>, list: seq<StoredItem>)
      requires Mirrored() && Indexed(items, itemsByScale, rows)
      requires list == ListAt(itemsByScale, scaleId)
      modifies this`rows, ItemObjects()`order
      ensures Mirrored()
      ensures rows == Renumbered(old(rows), Reordered(Ids(list), order))
    {
      IndexFacts(items, itemsByScale, rows, scaleId);
      assert Renumbered(rows, []) == rows;
      var pos, seen := NumberListed(scaleId, order, Ids(list));
      NumberRest(list, pos, seen, old(rows), Listed(order, Ids(list)));
    }

    ghost predicate Numbered(rows0: map<string, Item>, numbered: seq<string>)
      reads this, ItemObjects()
    {
      && Mirrored() && items.Keys == rows.Keys
      && (forall id :: id in items ==> items[id].id == id)
      && rows == Renumbered(rows0, numbered)
    }

    // The first loop: the listed items of the scale, each at its first mention.
    method NumberListed(scaleId: string, order: seq<string>, ghost ids: seq<string>) returns (pos: nat, seen: set<string>)
      requires Numbered(rows, []) && Exactly(rows, scaleId, ids)
      modifies this`rows, ItemObjects()`order
      ensures Numbered(old(rows), Listed(order, ids))
      ensures pos == |Listed(order, ids)| + 1
      ensures forall id :: id in seen <==> id in Listed(order, ids)
    {
      pos, seen := 1, {};
      ghost var numbered: seq<string> := [];
      for i := 0 to |order|
        invariant Numbered(old(rows), numbered) && numbered == Listed(order[..i], ids)
        invariant pos == |numbered| + 1
        invariant forall id :: id in seen <==> id in numbered
      {
        var id := order[i];
        ListedStep(order, ids, i);
        if id in items && items[id].scaleId == scaleId && id !in seen {
          SetPosition(items[id], pos, old(rows), numbered);
          numbered := numbered + [id];
          pos := pos + 1;
          seen := seen + {id};
        }
      }
      assert order[..|order|] == order;
    }

    // The second loop: what was not listed, in the order it is in.
    method NumberRest(list: seq<StoredItem>, from: nat, seen: set<string>, ghost rows0: map<string, Item>, ghost listed: seq<string>)
      requires Numbered(rows0, listed) && from == |listed| + 1
      requires forall x :: x in list ==> x.id in items && items[x.id] == x
      requires NoDuplicates(Ids(list))
      requires forall id :: id in seen <==> id in listed
      modifies this`rows, ItemObjects()`order
      ensures Numbered(rows0, listed + Rest(Ids(list), listed))
    {
      var pos := from;
      ghost var ids := Ids(list);
      ghost var numbered := listed;
      assert numbered == listed + Rest(ids[..0], listed);
      for i := 0 to |list|
        invariant Numbered(rows0, numbered)
        invariant numbered == listed + Rest(ids[..i], listed)
        invariant pos == |numbered| + 1
      {
        RestAppended(ids, listed, seen, i);
        pos := NumberUnseen(list[i], pos, seen, rows0, numbered);
        numbered := Extended(numbered, ids[i], seen);
      }
      assert ids[..|list|] == ids;
    }

    method NumberUnseen(it: StoredItem, pos: nat, seen: set<string>, ghost rows0: map<string, Item>, ghost numbered: seq<string>)
        returns (next: nat)
      requires Numbered(rows0, numbered) && pos == |numbered| + 1
      requires it.id in items && items[it.id] == it && (it.id !in seen ==> it.id !in numbered)
      modifies this`rows, it`order
      ensures Numbered(rows0, Extended(numbered, it.id, seen))
      ensures next == |Extended(numbered, it.id, seen)| + 1
    {
      next := pos;
      if it.id !in seen {
        SetPosition(it, pos, rows0, numbered);
        next := pos + 1;
      }
    }

    method SetPosition(it: StoredItem, pos: nat, ghost rows0: map<string, Item>, ghost numbered: seq<string>)
      requires Numbered(rows0, numbered) && pos == |numbered| + 1
      requires it.id in items && items[it.id] == it && it.id !in numbered
      modifies this`rows, it`order
      ensures Numbered(rows0, numbered + [it.id])
    {
      it.order := pos;
      RenumberedStep(rows0, numbered, it.id);
      rows := rows[it.id := it.Row()];
    }

    method ListResponsesByScale(scaleId: string) returns (out: seq<Response>)
      requires Valid()
      ensures out == ResponsesOf(responses, ItemsOf(rows, scaleId))
    {
      out := [];
      ghost var wanted := ItemsOf(rows, scaleId);
      for i := 0 to |responses|
        invariant out == ResponsesOf(responses[..i], wanted)
      {
        var r := responses[i];
        KeepStep(responses, i, wanted);
        assert r.itemId in wanted <==> r.itemId in items && items[r.itemId].scaleId == scaleId;
        if r.itemId in items && items[r.itemId].scaleId == scaleId {
          out := out + [r];
        }
      }
      assert responses[..|responses|] == responses;
    }

    method DeleteResponsesByScale(scaleId: string) returns (removed: nat)
      requires Valid() && SealedMirrored()
      modifies this`responses, this`e2ee, this`sealed
      ensures Valid() && SealedMirrored() && Abs() == Catalogue.DeleteResponsesByScale(old(Abs()), scaleId)
      ensures removed == |ResponsesOf(old(responses), ItemsOf(rows, scaleId))| + |SealedOf(old(sealed), scaleId)|
      ensures forall x :: x in e2ee ==> x in old(e2ee)
    {
      var nr, plain := AnswersToOtherScales(responses, scaleId);
      var encrypted := DropSealed(scaleId);
      responses := nr;
      removed := plain + encrypted;
    }

    // The first loop of DeleteResponsesByScale.
    method AnswersToOtherScales(rs: seq<Response>, scaleId: string) returns (nr: seq<Response>, removed: nat)
      requires Valid()
      ensures nr == KeepResponses(rs, ItemsOf(rows, scaleId))
      ensures removed == |ResponsesOf(rs, ItemsOf(rows, scaleId))|
    {
      nr, removed := [], 0;
      ghost var dropped := ItemsOf(rows, scaleId);
      for i := 0 to |rs|
        invariant nr == KeepResponses(rs[..i], dropped)
        invariant removed == |ResponsesOf(rs[..i], dropped)|
      {
        var r := rs[i];
        KeepStep(rs, i, dropped);
        if r.itemId in items && items[r.itemId].scaleId == scaleId {
          removed := removed + 1;
        } else {
          nr := nr + [r];
        }
      }
      assert rs[..|rs|] == rs;
    }

    // The second loop of DeleteResponsesByScale.
    method DropSealed(scaleId: string) returns (removed: nat)
      requires SealedMirrored()
      modifies this`e2ee, this`sealed
      ensures SealedMirrored()
      ensures sealed == KeepOtherScales(old(sealed), scaleId)
      ensures removed == |SealedOf(old(sealed), scaleId)|
      ensures forall x :: x in e2ee ==> x in old(e2ee)
    {
      var ne;
      ghost var ns;
      ne, removed, ns := SealedOfOthers(scaleId);
      e2ee := ne;
      sealed := ns;
    }

    method SealedOfOthers(scaleId: string) returns (ne: seq<StoredResponse>, removed: nat, ghost ns: seq<Sealed>)
      requires SealedMirrored()
      ensures ns == KeepOtherScales(sealed, scaleId) && Mirrors(ne, ns)
      ensures removed == |SealedOf(sealed, scaleId)|
      ensures forall x :: x in ne ==> x in e2ee
    {
      removed := 0;
      ne, ns := [], [];
      for i := 0 to |e2ee|
        invariant ns == KeepOtherScales(sealed[..i], scaleId) && Mirrors(ne, ns)
        invariant removed == i - |ne|
        invariant forall x :: x in ne ==> x in e2ee[..i]
      {
        var e := e2ee[i];
        MirrorsNewcomer(ne, ns, e2ee, sealed, i);
        SealedStep(sealed, i, scaleId);
        if e.scaleId == scaleId {
          removed := removed + 1;
        } else {
          ne, ns := ne + [e], ns + [sealed[i]];
        }
      }
      assert sealed[..|e2ee|] == sealed;
      SealedDroppingIsLocal(sealed, scaleId, scaleId);
    }

    method CleanupBefore(cutoff: int) returns (removed: nat)
      requires Valid()
      modifies this`responses
      ensures Valid() && Abs() == Catalogue.Apply(old(Abs()), CleanupOp(cutoff))
      ensures removed == |old(responses)| - |responses|
    {
      var nr;
      nr, removed := AnswersSince(responses, cutoff);
      responses := nr;
    }

    method AddParticipant(pid: string, email: string)
      requires Valid()
      modifies this`participants
      ensures Valid() && Abs() == old(Abs()).(participants := old(participants)[pid := email])
    {
      participants := participants[pid := email];
    }

    method AddResponses(rs: seq<Response>)
      requires Valid()
      modifies this`responses
      ensures Valid() && Abs() == old(Abs()).(responses := old(responses) + rs)
    {
      responses := responses + rs;
    }

    method DeleteParticipantByID(pid: string, hard: bool) returns (ok: bool)
      requires Valid()
      modifies this`responses, this`participants
      ensures Valid() && Abs() == Catalogue.DeleteParticipant(old(Abs()), pid, hard)
      ensures ok <==> pid in old(participants)
    {
      if pid !in participants {
        return false;
      }
      var nr: seq<Response> := [];
      for i := 0 to |responses|
        modifies {}
        invariant nr == KeepOtherParticipants(responses[..i], pid)
      {
        ParticipantStep(responses, i, pid);
        if responses[i].participantId != pid {
          nr := nr + [responses[i]];
        }
      }
      assert responses[..|responses|] == responses;
      responses := nr;
      if hard {
        participants := participants - {pid};
      } else {
        participants := participants[pid := ""];
      }
      return true;
    }

    method AddE2EEResponse(r: StoredResponse)
      requires SealedMirrored() && r !in e2ee
      modifies this`e2ee, this`sealed
      ensures SealedMirrored() && Abs() == Catalogue.Apply(old(Abs()), IntakeOp(r.Row()))
      ensures e2ee == old(e2ee) + [r]
    {
      e2ee := e2ee + [r];
      sealed := sealed + [r.Row()];
    }

    method AppendE2EEEncDEK(responseId: string, env: Envelope) returns (ok: bool)
      requires SealedMirrored()
      modifies this`sealed, e2ee`encDek
      ensures SealedMirrored() && Abs() == Catalogue.Apply(old(Abs()), RewrapOp(responseId, env))
      ensures sealed == AppendEnvelope(old(sealed), responseId, env) && e2ee == old(e2ee)
      ensures ok <==> FirstSealed(old(sealed), responseId) < |old(sealed)|
    {
      var i := IndexOfResponse(responseId);
      if i == |e2ee| {
        return false;
      }
      var r := e2ee[i];
      r.encDek := r.encDek + [env];
      sealed := sealed[i := r.Row()];
      return true;
    }

    method ListE2EEResponses(scaleId: string) returns (out: seq<StoredResponse>)
      requires SealedMirrored()
      ensures Mirrors(out, SealedOf(sealed, scaleId))
      ensures forall x :: x in out ==> x in e2ee
    {
      out := [];
      for i := 0 to |e2ee|
        invariant Mirrors(out, SealedOf(sealed[..i], scaleId))
        invariant forall x :: x in out ==> x in e2ee[..i]
      {
        var e := e2ee[i];
        MirrorsNewcomer(out, SealedOf(sealed[..i], scaleId), e2ee, sealed, i);
        SealedStep(sealed, i, scaleId);
        if e.scaleId == scaleId {
          out := out + [e];
        }
      }
      assert sealed[..|e2ee|] == sealed;
    }

    // The search both envelope methods start with; the length stands for "not found".
    method IndexOfResponse(responseId: string) returns (i: nat)
      requires SealedMirrored()
      ensures i == FirstSealed(sealed, responseId)
    {
      i := 0;
      while i < |e2ee| && e2ee[i].responseId != responseId
        invariant i <= |e2ee|
        invariant forall j :: 0 <= j < i ==> sealed[j].responseId != responseId
      {
        i := i + 1;
      }
    }

    method DeleteE2EEResponse(responseId: string) returns (ok: bool)
      requires SealedMirrored()
      modifies this`e2ee, this`sealed
      ensures SealedMirrored() && Abs() == Catalogue.Apply(old(Abs()), DeleteSealedOp(responseId))
      ensures ok <==> FirstSealed(old(sealed), responseId) < |old(sealed)|
      ensures forall x :: x in e2ee ==> x in old(e2ee)
    {
      var i := IndexOfResponse(responseId);
      if i == |e2ee| {
        return false;
      }
      MirrorsWithout(e2ee, sealed, i);
      e2ee := e2ee[..i] + e2ee[i + 1..];
      sealed := sealed[..i] + sealed[i + 1..];
      return true;
    }
  }

  // slices of the responses and of one scale's list, as the filtering loops build them

  method AnswersToOthers(rs: seq<Response>, dropped: set<string>) returns (nr: seq<Response>)
    ensures nr == KeepResponses(rs, dropped)
  {
    nr := [];
    for i := 0 to |rs|
      invariant nr == KeepResponses(rs[..i], dropped)
    {
      KeepStep(rs, i, dropped);
      if rs[i].itemId !in dropped {
        nr := nr + [rs[i]];
      }
    }
    assert rs[..|rs|] == rs;
  }

  method AnswersSince(rs: seq<Response>, cutoff: int) returns (nr: seq<Response>, removed: nat)
    ensures nr == KeepSince(rs, cutoff) && removed == |rs| - |nr|
  {
    nr, removed := [], 0;
    for i := 0 to |rs|
      invariant nr == KeepSince(rs[..i], cutoff)
      invariant removed == i - |nr|
    {
      SinceStep(rs, i, cutoff);
      if rs[i].submittedAt < cutoff {
        removed := removed + 1;
      } else {
        nr := nr + [rs[i]];
      }
    }
    assert rs[..|rs|] == rs;
  }

  method Without(list: seq<StoredItem>, id: string) returns (rest: seq<StoredItem>)
    ensures Ids(rest) == Rest(Ids(list), [id])
    ensures forall x :: x in rest ==> x in list && x.id != id
  {
    rest := [];
    ghost var ids := Ids(list);
    for i := 0 to |list|
      invariant Ids(rest) == Rest(ids[..i], [id])
      invariant forall x :: x in rest ==> x in list && x.id != id
    {
      RestStep(ids, [id], i);
      if list[i].id != id {
        IdsAppend(rest, list[i]);
        rest := rest + [list[i]];
      }
    }
    assert ids[..|list|] == ids;
  }

  lemma IdsAppend(list: seq<StoredItem>, x: StoredItem)
    ensures Ids(list + [x]) == Ids(list) + [x.id]
  {
  }

  lemma ListWithNewcomer(items: map<string, StoredItem>, index: map<string, seq<StoredItem>>, rows: map<string, Item>,
                         it: StoredItem, items': map<string, StoredItem>, rows': map<string, Item>)
    requires Indexed(items, index, rows) && it.id !in items
    requires items' == items[it.id := it] && rows' == rows[it.id := it.Row()]
    ensures Sortable(items, rows, items', rows', it.scaleId, ListAt(index, it.scaleId) + [it])
  {
    var list := ListAt(index, it.scaleId);
    IndexFacts(items, index, rows, it.scaleId);
    assert Ids(list + [it]) == Ids(list) + [it.id];
  }

  // Some list still shows an object whose id another object has taken over.
  ghost predicate ShowsOthers(items: map<string, StoredItem>, index: map<string, seq<StoredItem>>) {
    exists s, x :: x in ListAt(index, s) && x.id in items && items[x.id] != x
  }

  lemma StaleIsWrong(items: map<string, StoredItem>, index: map<string, seq<StoredItem>>, rows: map<string, Item>)
    requires ShowsOthers(items, index)
    ensures !Indexed(items, index, rows)
  {
    var s, x :| x in ListAt(index, s) && x.id in items && items[x.id] != x;
    assert !ListOk(items, rows, s, ListAt(index, s));
  }

  lemma StaysStale(items: map<string, StoredItem>, index: map<string, seq<StoredItem>>, it: StoredItem, sorted: seq<StoredItem>)
    requires ShowsOthers(items, index)
    requires forall s :: it !in ListAt(index, s)
    requires forall x :: x in ListAt(index, it.scaleId) ==> x in sorted
    ensures ShowsOthers(items[it.id := it], index[it.scaleId := sorted])
  {
    var s, x :| x in ListAt(index, s) && x.id in items && items[x.id] != x;
    assert x in ListAt(index[it.scaleId := sorted], s);
  }

  // The object that held the newcomer's id stays listed.
  lemma Overtaken(items: map<string, StoredItem>, index: map<string, seq<StoredItem>>, rows: map<string, Item>,
                  it: StoredItem, sorted: seq<StoredItem>)
    requires Indexed(items, index, rows) && it.id in items && items[it.id] != it
    requires forall x :: x in ListAt(index, it.scaleId) ==> x in sorted
    ensures ShowsOthers(items[it.id := it], index[it.scaleId := sorted])
  {
    ListHolds(items, index, rows, it.id);
    assert items[it.id] in ListAt(index[it.scaleId := sorted], items[it.id].scaleId);
  }

  // A newcomer under an id of its own, and the sorted list it joined.
  lemma Joined(items: map<string, StoredItem>, index: map<string, seq<StoredItem>>, rows: map<string, Item>,
               it: StoredItem, rows': map<string, Item>, sorted: seq<StoredItem>)
    requires Indexed(items, index, rows) && it.id !in items
    requires rows' == rows[it.id := it.Row()]
    requires forall id :: id in items ==> rows[id] == items[id].Row()
    requires multiset(sorted) == multiset(ListAt(index, it.scaleId) + [it])
    requires NoDuplicates(Ids(ListAt(index, it.scaleId) + [it])) ==> SortedObjects(sorted)
    ensures Indexed(items[it.id := it], index[it.scaleId := sorted], rows')
  {
    var list := ListAt(index, it.scaleId) + [it];
    ListWithNewcomer(items, index, rows, it, items[it.id := it], rows');
    SortedListOk(items[it.id := it], rows', it.scaleId, list, sorted);
    IndexRebuilt(items, index, rows, items[it.id := it], rows', it.scaleId, sorted);
  }

  // What adding does to the index, by what the index was before and whether the id was in use.
  lemma AfterAdding(items: map<string, StoredItem>, index: map<string, seq<StoredItem>>, st: State, row: Item,
                    it: StoredItem, rows': map<string, Item>, sorted: seq<StoredItem>)
    requires forall id :: id in items ==> id in st.rows && st.rows[id] == items[id].Row()
    requires forall s :: it !in ListAt(index, s)
    requires it.id in items ==> items[it.id] != it
    requires rows' == st.rows[it.id := it.Row()]
    requires it.Row() == row.(order := if row.order <= 0 then |ListAt(index, it.scaleId)| + 1 else row.order)
    requires multiset(sorted) == multiset(ListAt(index, it.scaleId) + [it])
    requires NoDuplicates(Ids(ListAt(index, it.scaleId) + [it])) ==> SortedObjects(sorted)
    ensures
      var items', index' := items[it.id := it], index[it.scaleId := sorted];
      && (Indexed(items, index, st.rows) && it.id !in items ==>
           Indexed(items', index', rows') && rows' == Catalogue.AddItem(st, row).rows)
      && (Indexed(items, index, st.rows) && it.id in items ==> ShowsOthers(items', index') && !Indexed(items', index', rows'))
      && (ShowsOthers(items, index) ==> ShowsOthers(items', index'))
  {
    SameObjects(sorted, ListAt(index, it.scaleId) + [it]);
    if Indexed(items, index, st.rows) {
      if it.id in items {
        Overtaken(items, index, st.rows, it, sorted);
        StaleIsWrong(items[it.id := it], index[it.scaleId := sorted], rows');
      } else {
        RowJoined(items, index, st, row, it.Row());
        Joined(items, index, st.rows, it, rows', sorted);
      }
    }
    if ShowsOthers(items, index) {
      StaysStale(items, index, it, sorted);
    }
  }

  lemma RowJoined(items: map<string, StoredItem>, index: map<string, seq<StoredItem>>, st: State, row: Item, now: Item)
    requires Indexed(items, index, st.rows)
    requires now == row.(order := if row.order <= 0 then |ListAt(index, row.scaleId)| + 1 else row.order)
    ensures st.rows[row.id := now] == Catalogue.AddItem(st, row).rows
  {
    IndexLength(items, index, st.rows, row.scaleId);
  }

  // A list of a scale's items that only needs sorting to be the scale's list after a change to that scale.
  ghost predicate Sortable(items: map<string, StoredItem>, rows: map<string, Item>,
                           items': map<string, StoredItem>, rows': map<string, Item>, scaleId: string, list: seq<StoredItem>)
  {
    && ChangedOnly(items, rows, items', rows', scaleId)
    && (forall x :: x in list ==> x.id in items' && items'[x.id] == x)
    && NoDuplicates(Ids(list)) && Exactly(rows', scaleId, Ids(list))
  }

  // The rows differ at most at items of one scale.
  ghost predicate ChangedOnly(items: map<string, StoredItem>, rows: map<string, Item>,
                              items': map<string, StoredItem>, rows': map<string, Item>, scaleId: string)
  {
    && items'.Keys == rows'.Keys
    && (forall id :: id in items' ==> items'[id].id == id && items'[id].scaleId == rows'[id].scaleId)
    && (forall id :: id in rows && rows[id].scaleId != scaleId ==>
         id in rows' && id in items && id in items' && rows'[id] == rows[id] && items'[id] == items[id])
    && (forall id :: id in rows' && rows'[id].scaleId != scaleId ==> id in rows && rows[id] == rows'[id])
  }

  lemma SameObjects(sorted: seq<StoredItem>, list: seq<StoredItem>)
    requires multiset(sorted) == multiset(list)
    ensures forall x :: x in sorted <==> x in list
  {
    assert forall x :: x in sorted <==> x in multiset(sorted);
    assert forall x :: x in list <==> x in multiset(list);
  }

  lemma SortedListOk(items: map<string, StoredItem>, rows: map<string, Item>, scaleId: string,
                     list: seq<StoredItem>, sorted: seq<StoredItem>)
    requires multiset(sorted) == multiset(list)
    requires SortedObjects(sorted)
    requires forall x :: x in list ==> x.id in items && items[x.id] == x
    requires forall x :: x in list ==> x.id in rows && rows[x.id] == x.Row()
    requires Exactly(rows, scaleId, Ids(list))
    ensures ListOk(items, rows, scaleId, sorted)
  {
    SameObjects(sorted, list);
    ObjectsListing(rows, scaleId, sorted, list);
    IsListingOf(rows, scaleId, Ids(sorted));
  }

  // A sorted list of the objects behind the rows of a scale is the listing of that scale.
  lemma ObjectsListing(rows: map<string, Item>, scaleId: string, out: seq<StoredItem>, list: seq<StoredItem>)
    requires forall x :: x in out <==> x in list
    requires forall x :: x in out ==> x.id in rows && rows[x.id] == x.Row()
    requires SortedObjects(out)
    requires Exactly(rows, scaleId, Ids(list))
    ensures IsListing(rows, scaleId, Ids(out))
  {
    SameIds(out, list);
    SameIds(list, out);
    forall i, j | 0 <= i < j < |out|
      ensures out[i].id != out[j].id && KeyLess(rows[out[i].id].order, out[i].id, rows[out[j].id].order, out[j].id)
    {
      KeyLessTotal(out[i].order, out[i].id, out[j].order, out[j].id);
    }
  }

  lemma SameIds(out: seq<StoredItem>, list: seq<StoredItem>)
    requires forall x :: x in out ==> x in list
    ensures forall id :: id in Ids(out) ==> id in Ids(list)
  {
    forall id | id in Ids(out) ensures id in Ids(list) {
      var i :| 0 <= i < |out| && out[i].id == id;
      assert out[i] in out;
      var j :| 0 <= j < |list| && list[j] == out[i];
      assert Ids(list)[j] == id;
    }
  }

  // Every item is in the list of its scale.
  lemma ListHolds(items: map<string, StoredItem>, index: map<string, seq<StoredItem>>, rows: map<string, Item>, id: string)
    requires Indexed(items, index, rows) && id in items
    ensures items[id] in ListAt(index, items[id].scaleId)
  {
    var list := ListAt(index, items[id].scaleId);
    IndexFacts(items, index, rows, items[id].scaleId);
    assert id in Ids(list);
    var i :| 0 <= i < |list| && list[i].id == id;
    assert list[i] in list;
  }

  lemma ListAfterPatch(items: map<string, StoredItem>, index: map<string, seq<StoredItem>>, rows: map<string, Item>,
                       id: string, rows': map<string, Item>)
    requires Indexed(items, index, rows) && id in rows
    requires exists it: Item :: it.scaleId == rows[id].scaleId && rows' == rows[id := it]
    ensures rows[id].scaleId in index
    ensures Sortable(items, rows, items, rows', rows[id].scaleId, ListAt(index, rows[id].scaleId))
  {
    ListHolds(items, index, rows, id);
    IndexFacts(items, index, rows, rows[id].scaleId);
  }

  lemma ListAfterDelete(items: map<string, StoredItem>, index: map<string, seq<StoredItem>>, st: State, id: string, rest: seq<StoredItem>)
    requires Indexed(items, index, st.rows) && id in items
    requires Ids(rest) == Rest(Ids(ListAt(index, items[id].scaleId)), [id])
    requires forall x :: x in rest ==> x in ListAt(index, items[id].scaleId) && x.id != id
    ensures var s := items[id].scaleId;
            && ChangedOnly(items, st.rows, items - {id}, st.rows - {id}, s)
            && ListOk(items - {id}, st.rows - {id}, s, rest)
  {
    var s := items[id].scaleId;
    IndexLength(items, index, st.rows, s);
    DeleteItemLists(st, id, s);
    RestHeld(items, index, st.rows, id, rest);
  }

  lemma RestHeld(items: map<string, StoredItem>, index: map<string, seq<StoredItem>>, rows: map<string, Item>, id: string, rest: seq<StoredItem>)
    requires Indexed(items, index, rows) && id in items
    requires forall x :: x in rest ==> x in ListAt(index, items[id].scaleId) && x.id != id
    ensures forall x :: x in rest ==> x.id in items - {id} && (items - {id})[x.id] == x
    ensures ChangedOnly(items, rows, items - {id}, rows - {id}, items[id].scaleId)
  {
    IndexFacts(items, index, rows, items[id].scaleId);
  }

  lemma ListedIdsAreItems(items: map<string, StoredItem>, index: map<string, seq<StoredItem>>, rows: map<string, Item>,
                          scaleId: string, ids: set<string>)
    requires Indexed(items, index, rows)
    requires var list := ListAt(index, scaleId); ids == set j | 0 <= j < |list| :: list[j].id
    ensures ids == ItemsOf(rows, scaleId)
  {
    var list := ListAt(index, scaleId);
    IndexFacts(items, index, rows, scaleId);
    forall id ensures id in ids <==> id in ItemsOf(rows, scaleId) {
      assert id in Ids(list) <==> id in ItemsOf(rows, scaleId);
    }
  }

  // Deleting a scale: its list goes with its items.
  lemma IndexDropped(items: map<string, StoredItem>, index: map<string, seq<StoredItem>>, rows: map<string, Item>, scaleId: string)
    requires Indexed(items, index, rows)
    ensures var gone := ItemsOf(rows, scaleId); Indexed(items - gone, index - {scaleId}, rows - gone)
  {
    var gone := ItemsOf(rows, scaleId);
    IsListingOf(rows - gone, scaleId, Ids([]));
    IndexRebuilt(items, index, rows, items - gone, rows - gone, scaleId, []);
    forall s ensures ListOk(items - gone, rows - gone, s, ListAt(index - {scaleId}, s)) {
      assert ListAt(index - {scaleId}, s) == ListAt(index[scaleId := []], s);
    }
  }

  lemma RenumberedStep(rows: map<string, Item>, numbered: seq<string>, id: string)
    requires id in rows && id !in numbered
    ensures Renumbered(rows, numbered + [id]) == Renumbered(rows, numbered)[id := rows[id].(order := |numbered| + 1)]
  {
    IndexAfterAppend(numbered, id);
    var before, after := Renumbered(rows, numbered), Renumbered(rows, numbered + [id]);
    forall x | x in rows && x != id ensures after[x] == before[x] {
    }
  }

  lemma ListAfterRenumbering(items: map<string, StoredItem>, index: map<string, seq<StoredItem>>, rows: map<string, Item>,
                             scaleId: string, ids: seq<string>)
    requires Indexed(items, index, rows)
    requires forall id :: id in ids ==> id in Ids(ListAt(index, scaleId))
    ensures Sortable(items, rows, items, Renumbered(rows, ids), scaleId, ListAt(index, scaleId))
  {
    IndexFacts(items, index, rows, scaleId);
  }

  lemma NewcomerDiffers<T>(out: seq<T>, all: seq<T>, i: nat)
    requires i < |all|
    requires forall x :: x in out ==> x in all[..i]
    requires forall j, k :: 0 <= j < k < |all| ==> all[j] != all[k]
    ensures forall j :: 0 <= j < |out| ==> out[j] != all[i]
  {
    forall j | 0 <= j < |out| ensures out[j] != all[i] {
      assert out[j] in out;
      var k :| 0 <= k < i && all[..i][k] == out[j];
    }
  }

  function Extended(numbered: seq<string>, id: string, seen: set<string>): seq<string> {
    if id in seen then numbered else numbered + [id]
  }

  lemma RestAppended(ids: seq<string>, listed: seq<string>, seen: set<string>, i: nat)
    requires i < |ids| && NoDuplicates(ids)
    requires forall id :: id in seen <==> id in listed
    ensures var numbered := listed + Rest(ids[..i], listed);
            && (ids[i] !in seen ==> ids[i] !in numbered)
            && listed + Rest(ids[..i + 1], listed) == Extended(numbered, ids[i], seen)
  {
    RestStep(ids, listed, i);
    assert ids[i] !in ids[..i];
    assert listed + (Rest(ids[..i], listed) + [ids[i]]) == (listed + Rest(ids[..i], listed)) + [ids[i]];
  }
}
