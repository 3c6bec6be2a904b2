// The item file as records: ExportItemsCSV of internal/services/export.go and ImportItemsCSV of
// internal/services/scale_service.go, over the memory store.
module ItemsFile {
  import opened Wrappers
  import opened Survey
  import opened Text
  import opened Listing
  import opened ItemsHeader
  import opened ItemsCsv
  import opened Catalogue
  import MemoryStore

  predicate Before(a: Item, b: Item) {
    KeyLess(a.order, a.id, b.order, b.id)
  }

  function Insert(sorted: seq<Item>, it: Item): seq<Item> {
    if sorted == [] || !Before(it, sorted[|sorted| - 1]) then sorted + [it]
    else Insert(sorted[..|sorted| - 1], it) + [sorted[|sorted| - 1]]
  }

  // sort.SliceStable by position, then id.
  function ByPosition(items: seq<Item>): seq<Item> {
    if items == [] then [] else Insert(ByPosition(items[..|items| - 1]), items[|items| - 1])
  }

  predicate InOrder(items: seq<Item>) {
    forall i, j :: 0 <= i < j < |items| ==> !Before(items[j], items[i])
  }

  lemma {:induction false} InsertKeepsOrder(sorted: seq<Item>, it: Item)
    requires InOrder(sorted)
    ensures InOrder(Insert(sorted, it))
    ensures multiset(Insert(sorted, it)) == multiset(sorted) + multiset{it}
  {
    if sorted != [] {
      var n := |sorted| - 1;
      assert sorted == sorted[..n] + [sorted[n]];
      if Before(it, sorted[n]) {
        InsertKeepsOrder(sorted[..n], it);
        LastStaysLast(sorted, it, Insert(sorted[..n], it));
      } else {
        AppendKeepsOrder(sorted, it);
      }
    }
  }

  lemma LastStaysLast(sorted: seq<Item>, it: Item, front: seq<Item>)
    requires sorted != [] && InOrder(sorted) && InOrder(front) && Before(it, sorted[|sorted| - 1])
    requires multiset(front) == multiset(sorted[..|sorted| - 1]) + multiset{it}
    ensures InOrder(front + [sorted[|sorted| - 1]])
  {
    var n := |sorted| - 1;
    var last := sorted[n];
    KeyLessTotal(it.order, it.id, last.order, last.id);
    forall i | 0 <= i < |front| ensures !Before(last, front[i]) {
      assert front[i] in multiset(front);
      assert front[i] in sorted[..n] || front[i] == it;
    }
  }

  lemma AppendKeepsOrder(sorted: seq<Item>, it: Item)
    requires sorted != [] && InOrder(sorted) && !Before(it, sorted[|sorted| - 1])
    ensures InOrder(sorted + [it])
  {
    var n := |sorted| - 1;
    forall i | 0 <= i < n ensures !Before(it, sorted[i]) {
      KeyNotLessTransitive(sorted[i].order, sorted[i].id, sorted[n].order, sorted[n].id, it.order, it.id);
    }
  }

  lemma {:induction false} ByPositionSorts(items: seq<Item>)
    ensures InOrder(ByPosition(items))
    ensures multiset(ByPosition(items)) == multiset(items)
  {
    if items != [] {
      var n := |items| - 1;
      assert items == items[..n] + [items[n]];
      ByPositionSorts(items[..n]);
      InsertKeepsOrder(ByPosition(items[..n]), items[n]);
    }
  }

  // ----- export -----

  function Records(items: seq<Item>): (r: seq<seq<string>>)
    ensures |r| == |items|
  {
    if items == [] then [] else [AsRow(ToCells(items[0]))] + Records(items[1..])
  }

  method ExportItems(items: seq<Item>) returns (records: seq<seq<string>>)
    requires forall it :: it in items ==> InRange(it)
    ensures records == [NAMES] + Records(ByPosition(items))
  {
    var sorted := ByPosition(items);
    ByPositionSorts(items);
    SameMembers(items, sorted);
    records := [NAMES];
    var left := sorted;
    while left != []
      invariant forall it :: it in left ==> it in items
      invariant [NAMES] + Records(sorted) == records + Records(left)
      decreases left
    {
      var rec := ExportRecord(left[0]);
      assert records + Records(left) == (records + [rec]) + Records(left[1..]);
      records := records + [rec];
      left := left[1..];
    }
    assert records + [] == records;
  }

  // The items of a scale, in whatever order.
  ghost predicate Enumerates(items: seq<Item>, rows: map<string, Item>, scaleId: string) {
    && NoDuplicates(ItemIds(items))
    && (forall it :: it in items ==> it.id in rows && rows[it.id] == it && it.scaleId == scaleId)
    && (forall id :: id in rows && rows[id].scaleId == scaleId ==> rows[id].id == id && rows[id] in items)
  }

  // The file lists the scale as it is shown, whatever order the items are handed over in.
  lemma ExportFollowsListing(items: seq<Item>, rows: map<string, Item>, scaleId: string)
    requires Enumerates(items, rows, scaleId)
    ensures ItemIds(ByPosition(items)) == ListingOf(rows, scaleId)
    ensures Enumerates(ByPosition(items), rows, scaleId)
  {
    var sorted := ByPosition(items);
    ByPositionSorts(items);
    SameMembers(items, sorted);
    DistinctIdsShuffled(items, sorted);
    SortedIsListing(sorted, rows, scaleId);
  }

  lemma SortedIsListing(sorted: seq<Item>, rows: map<string, Item>, scaleId: string)
    requires Enumerates(sorted, rows, scaleId) && InOrder(sorted)
    ensures ItemIds(sorted) == ListingOf(rows, scaleId)
  {
    var ids := ItemIds(sorted);
    forall i | 0 <= i < |ids| ensures ids[i] in rows && rows[ids[i]] == sorted[i] {
      assert sorted[i] in sorted;
    }
    forall i, j | 0 <= i < j < |ids| ensures KeyLess(rows[ids[i]].order, ids[i], rows[ids[j]].order, ids[j]) {
      assert !Before(sorted[j], sorted[i]);
      KeyLessTotal(sorted[i].order, sorted[i].id, sorted[j].order, sorted[j].id);
    }
    SortedExactly(sorted, rows, scaleId);
    IsListingOf(rows, scaleId, ids);
  }

  lemma SortedExactly(sorted: seq<Item>, rows: map<string, Item>, scaleId: string)
    requires Enumerates(sorted, rows, scaleId)
    ensures Exactly(rows, scaleId, ItemIds(sorted))
  {
    var ids := ItemIds(sorted);
    forall id | id in ids ensures id in rows && rows[id].scaleId == scaleId {
      var i :| 0 <= i < |ids| && ids[i] == id;
      assert sorted[i] in sorted;
    }
    forall id | id in rows && rows[id].scaleId == scaleId ensures id in ids {
      var i :| 0 <= i < |sorted| && sorted[i] == rows[id];
      assert sorted[i] in sorted;
      assert ids[i] == id;
    }
  }

  lemma SameMembers(xs: seq<Item>, ys: seq<Item>)
    requires multiset(xs) == multiset(ys)
    ensures forall it :: it in xs <==> it in ys
  {
    assert forall it :: it in xs <==> it in multiset(xs);
    assert forall it :: it in ys <==> it in multiset(ys);
  }

  lemma DistinctIdsShuffled(xs: seq<Item>, ys: seq<Item>)
    requires multiset(xs) == multiset(ys) && NoDuplicates(ItemIds(xs))
    ensures NoDuplicates(ItemIds(ys))
  {
    forall i, j | 0 <= i < j < |ys| ensures ItemIds(ys)[i] != ItemIds(ys)[j] {
      if ys[i].id == ys[j].id {
        SameMembers(xs, ys);
        assert ys[i] in xs && ys[j] in xs;
        var k :| 0 <= k < |xs| && xs[k] == ys[i];
        var l :| 0 <= l < |xs| && xs[l] == ys[j];
        assert ItemIds(xs)[k] == ItemIds(xs)[l];
        assert k == l;
        TwiceIn(ys, i, j);
        OnceIn(xs, k);
        assert false;
      }
    }
  }

  lemma TwiceIn(ys: seq<Item>, i: nat, j: nat)
    requires i < j < |ys| && ys[i] == ys[j]
    ensures multiset(ys)[ys[i]] >= 2
  {
    assert ys == ys[..i] + [ys[i]] + ys[i + 1..j] + [ys[j]] + ys[j + 1..];
  }

  lemma OnceIn(xs: seq<Item>, k: nat)
    requires k < |xs| && NoDuplicates(ItemIds(xs))
    ensures multiset(xs)[xs[k]] == 1
  {
    var front, back := xs[..k], xs[k + 1..];
    assert xs == front + [xs[k]] + back;
    assert forall i :: 0 <= i < |xs| && i != k ==> ItemIds(xs)[i] != ItemIds(xs)[k];
    assert xs[k] !in front && xs[k] !in back;
  }

  // ----- import -----

  predicate Blank(row: seq<string>) {
    Trim(Concat(row)) == ""
  }

  function Concat(row: seq<string>): string {
    if row == [] then "" else row[0] + Concat(row[1..])
  }

  lemma NotBlank(row: seq<string>, i: nat, c: char)
    requires i < |row| && c in row[i] && !IsSpace(c)
    ensures !Blank(row)
  {
    ConcatHas(row, i, c);
    TrimKeeps(Concat(row), c);
  }

  lemma {:induction false} ConcatHas(row: seq<string>, i: nat, c: char)
    requires i < |row| && c in row[i]
    ensures c in Concat(row)
  {
    if i > 0 {
      ConcatHas(row[1..], i - 1, c);
    }
  }

  // The items read before the first row without a stem, and whether there is no such row.
  datatype Parse = Parse(items: seq<Item>, complete: bool)

  function ParseRows(header: seq<string>, rows: seq<seq<string>>, scaleId: string, generated: seq<string>): Parse
    requires |generated| == |rows|
    decreases rows
  {
    if rows == [] then Parse([], true)
    else
      ParseOne(Blank(rows[0]), FromCells(Cells(header, rows[0]), scaleId, generated[0]),
               ParseRows(header, rows[1..], scaleId, generated[1..]))
  }

  // A row in front of others: blank rows are skipped, the first bad one ends it.
  function ParseOne(blank: bool, read: Result<Item, string>, rest: Parse): Parse {
    if blank then rest else if read.Err? then Parse([], false) else Parse([read.value] + rest.items, rest.complete)
  }

  // What the loop makes of one row.
  datatype Reading<T> = Skipped | Refused | Gives(item: T)

  function ReadingOf(header: seq<string>, row: seq<string>, scaleId: string, generated: string): Reading<Item> {
    AsReading(Blank(row), FromCells(Cells(header, row), scaleId, generated))
  }

  function AsReading(blank: bool, read: Result<Item, string>): Reading<Item> {
    if blank then Skipped else if read.Ok? then Gives(read.value) else Refused
  }

  function Readings(header: seq<string>, rows: seq<seq<string>>, scaleId: string, generated: seq<string>): (r: seq<Reading<Item>>)
    requires |generated| == |rows|
    ensures |r| == |rows|
    ensures forall i :: 0 <= i < |rows| ==> r[i] == ReadingOf(header, rows[i], scaleId, generated[i])
  {
    seq(|rows|, i requires 0 <= i < |rows| => ReadingOf(header, rows[i], scaleId, generated[i]))
  }

  // All rows are read, or those before the first one refused, which is number n; at names those of them that give an item.
  ghost predicate ReadUpTo<T>(readings: seq<Reading<T>>, n: nat, at: seq<int>, items: seq<T>, complete: bool) {
    && n <= |readings| && (complete <==> n == |readings|) && (n < |readings| ==> readings[n].Refused?)
    && |at| == |items|
    && (forall i, j :: 0 <= i < j < |at| ==> at[i] < at[j])
    && (forall j :: 0 <= j < |at| ==> 0 <= at[j] < n && readings[at[j]].Gives? && readings[at[j]].item == items[j])
    && (forall i {:trigger i in at} :: 0 <= i < n ==> readings[i].Skipped? || i in at)
  }

  function Taken(readings: seq<Reading<Item>>): Parse {
    if readings == [] then Parse([], true) else AfterFirst(readings[0], Taken(readings[1..]))
  }

  function AfterFirst(first: Reading<Item>, rest: Parse): Parse {
    match first
    case Skipped => rest
    case Refused => Parse([], false)
    case Gives(it) => Parse([it] + rest.items, rest.complete)
  }

  lemma {:induction false} TakenRead(readings: seq<Reading<Item>>) returns (n: nat, at: seq<int>)
    ensures ReadUpTo(readings, n, at, Taken(readings).items, Taken(readings).complete)
  {
    n, at := 0, [];
    if readings != [] && !readings[0].Refused? {
      var first, rest := readings[0], readings[1..];
      var m, more := TakenRead(rest);
      assert readings == [first] + rest;
      n := m + 1;
      if first.Skipped? {
        SkippedFirst(rest, m, more, Taken(rest).items, Taken(rest).complete);
        at := Shifted(more);
      } else {
        GivenFirst(first.item, rest, m, more, Taken(rest).items, Taken(rest).complete);
        at := [0] + Shifted(more);
      }
    }
  }

  lemma RowsRead(header: seq<string>, rows: seq<seq<string>>, scaleId: string, generated: seq<string>)
    returns (n: nat, at: seq<int>)
    requires |generated| == |rows|
    ensures
      var p := ParseRows(header, rows, scaleId, generated);
      ReadUpTo(Readings(header, rows, scaleId, generated), n, at, p.items, p.complete)
  {
    ParseIsTaken(header, rows, scaleId, generated, Readings(header, rows, scaleId, generated));
    n, at := TakenRead(Readings(header, rows, scaleId, generated));
  }

  lemma {:induction false} ParseIsTaken(header: seq<string>, rows: seq<seq<string>>, scaleId: string, generated: seq<string>,
                                        readings: seq<Reading<Item>>)
    requires |generated| == |rows| == |readings|
    requires forall i {:trigger readings[i]} :: 0 <= i < |rows| ==> readings[i] == ReadingOf(header, rows[i], scaleId, generated[i])
    ensures ParseRows(header, rows, scaleId, generated) == Taken(readings)
    decreases rows
  {
    if rows != [] {
      ParseIsTaken(header, rows[1..], scaleId, generated[1..], readings[1..]);
      ParseFirst(header, rows, scaleId, generated);
    }
  }

  lemma ParseFirst(header: seq<string>, rows: seq<seq<string>>, scaleId: string, generated: seq<string>)
    requires |generated| == |rows| && rows != []
    ensures ParseRows(header, rows, scaleId, generated)
         == AfterFirst(ReadingOf(header, rows[0], scaleId, generated[0]), ParseRows(header, rows[1..], scaleId, generated[1..]))
  {
    ParseByReading(Blank(rows[0]), FromCells(Cells(header, rows[0]), scaleId, generated[0]),
                   ParseRows(header, rows[1..], scaleId, generated[1..]));
  }

  lemma ParseByReading(blank: bool, read: Result<Item, string>, rest: Parse)
    ensures ParseOne(blank, read, rest) == AfterFirst(AsReading(blank, read), rest)
  {
  }

  function Shifted(at: seq<int>): (r: seq<int>)
    ensures |r| == |at| && forall j :: 0 <= j < |at| ==> r[j] == at[j] + 1
    ensures forall i :: i in at ==> i + 1 in r
  {
    var r := seq(|at|, j requires 0 <= j < |at| => at[j] + 1);
    assert forall j :: 0 <= j < |at| ==> r[j] == at[j] + 1;
    r
  }

  lemma SkippedFirst<T>(readings: seq<Reading<T>>, m: nat, more: seq<int>, items: seq<T>, complete: bool)
    requires ReadUpTo(readings, m, more, items, complete)
    ensures ReadUpTo([Skipped] + readings, m + 1, Shifted(more), items, complete)
  {
    var all := [Skipped] + readings;
    forall i | 0 <= i < m + 1 ensures all[i].Skipped? || i in Shifted(more) {
      if i > 0 && i - 1 in more {
        assert (i - 1) + 1 in Shifted(more);
      }
      assert i > 0 ==> all[i] == readings[i - 1];
    }
  }

  lemma GivenFirst<T>(it: T, readings: seq<Reading<T>>, m: nat, more: seq<int>, items: seq<T>, complete: bool)
    requires ReadUpTo(readings, m, more, items, complete)
    ensures ReadUpTo([Gives(it)] + readings, m + 1, [0] + Shifted(more), [it] + items, complete)
  {
    var all, at := [Gives(it)] + readings, [0] + Shifted(more);
    forall i | 0 <= i < m + 1 ensures all[i].Skipped? || i in at {
      if i > 0 && i - 1 in more {
        assert (i - 1) + 1 in Shifted(more);
      }
      assert i == 0 ==> at[0] == i;
      assert i > 0 ==> all[i] == readings[i - 1];
    }
    forall j | 0 <= j < |at| ensures 0 <= at[j] < m + 1 && all[at[j]].Gives? && all[at[j]].item == ([it] + items)[j] {
      if j > 0 {
        assert at[j] == more[j - 1] + 1 && all[at[j]] == readings[more[j - 1]];
      }
    }
  }

  // A row is blank if all its cells are.
  lemma BlankMeans(row: seq<string>)
    ensures Blank(row) <==> forall i :: 0 <= i < |row| ==> AllSpace(row[i])
  {
    TrimmedAway(Concat(row));
    ConcatBlank(row);
  }

  lemma TrimmedAway(s: string)
    ensures Trim(s) == "" <==> AllSpace(s)
  {
    if Trim(s) == "" {
      var left, right := TrimCutsBlanks(s);
    } else if AllSpace(s) {
      TrimIsTrimmed(s);
      TrimWithin(s, Trim(s)[0]);
    }
  }

  lemma {:induction false} ConcatBlank(row: seq<string>)
    ensures AllSpace(Concat(row)) <==> forall i :: 0 <= i < |row| ==> AllSpace(row[i])
  {
    if row != [] {
      ConcatBlank(row[1..]);
      assert forall i :: 1 <= i < |row| ==> row[i] == row[1..][i - 1];
      var all := Concat(row);
      assert forall i :: 0 <= i < |row[0]| ==> all[i] == row[0][i];
      assert forall i :: 0 <= i < |Concat(row[1..])| ==> all[|row[0]| + i] == Concat(row[1..])[i];
      if AllSpace(all) {
        assert AllSpace(row[0]) && AllSpace(Concat(row[1..]));
      }
    }
  }

  function AddAll(st: State, items: seq<Item>): State
    decreases items
  {
    if items == [] then st else AddAll(AddItem(st, items[0]), items[1..])
  }

  // What a list of so many items and the map hold after more items: an item replaces the one that held its id.
  function PlaceAll(rows: map<string, Item>, listed: nat, items: seq<Item>): map<string, Item>
    decreases items
  {
    if items == [] then rows else PlaceAll(Placed(rows, listed, items[0]), listed + 1, items[1..])
  }

  // The last item of an id stays, at its own position or at the end of the list as it was then; no other item changes.
  lemma {:induction false} PlacedItem(rows: map<string, Item>, listed: nat, items: seq<Item>, i: nat)
    requires i < |items| && forall j :: i < j < |items| ==> items[j].id != items[i].id
    ensures items[i].id in PlaceAll(rows, listed, items)
    ensures PlaceAll(rows, listed, items)[items[i].id]
         == if items[i].order > 0 then items[i] else items[i].(order := listed + i + 1)
    decreases items
  {
    var rest, next := items[1..], Placed(rows, listed, items[0]);
    if i == 0 {
      OtherItem(next, listed + 1, rest, items[0].id);
    } else {
      PlacedItem(next, listed + 1, rest, i - 1);
    }
  }

  lemma {:induction false} OtherItem(rows: map<string, Item>, listed: nat, items: seq<Item>, id: string)
    requires forall j :: 0 <= j < |items| ==> items[j].id != id
    ensures id in PlaceAll(rows, listed, items) <==> id in rows
    ensures id in rows ==> PlaceAll(rows, listed, items)[id] == rows[id]
    decreases items
  {
    if items != [] {
      OtherItem(Placed(rows, listed, items[0]), listed + 1, items[1..], id);
    }
  }

  function Placed(rows: map<string, Item>, listed: nat, it: Item): map<string, Item> {
    rows[it.id := if it.order <= 0 then it.(order := listed + 1) else it]
  }

  predicate Fresh(items: seq<Item>, rows: map<string, Item>) {
    NoDuplicates(ItemIds(items)) && forall i :: 0 <= i < |items| ==> items[i].id !in rows
  }

  function Moved(items: seq<Item>, scaleId: string): seq<Item> {
    seq(|items|, i requires 0 <= i < |items| => items[i].(scaleId := scaleId))
  }

  predicate AllTrimmed(ids: seq<string>) {
    ids == [] || (ids[0] != "" && Trimmed(ids[0]) && AllTrimmed(ids[1..]))
  }

  // A whole file comes back exactly when every item in it is normal.
  lemma {:induction false} FileComesBack(items: seq<Item>, scaleId: string, generated: seq<string>)
    requires |generated| == |items| && AllInRange(items) && AllTrimmed(generated)
    ensures ParseRows(NAMES, Records(items), scaleId, generated) == Parse(Moved(items, scaleId), true) <==> AllNormal(items)
  {
    if items != [] {
      var it, rest := items[0], items[1..];
      FileStep(items, scaleId, generated);
      ItemComesBack(it, scaleId, generated[0]);
      FileComesBack(rest, scaleId, generated[1..]);
      MovedStep(items, scaleId);
      var p := FromCells(Cells(NAMES, AsRow(ToCells(it))), scaleId, generated[0]);
      var more := ParseRows(NAMES, Records(rest), scaleId, generated[1..]);
      if p.Ok? {
        SameHeads(p.value, more.items, it.(scaleId := scaleId), Moved(rest, scaleId));
      }
    }
  }

  lemma MovedStep(items: seq<Item>, scaleId: string)
    requires items != []
    ensures Moved(items, scaleId) == [items[0].(scaleId := scaleId)] + Moved(items[1..], scaleId)
  {
  }

  lemma SameHeads(x: Item, xs: seq<Item>, y: Item, ys: seq<Item>)
    ensures [x] + xs == [y] + ys <==> x == y && xs == ys
  {
    if [x] + xs == [y] + ys {
      assert ([x] + xs)[0] == ([y] + ys)[0];
      assert ([x] + xs)[1..] == xs && ([y] + ys)[1..] == ys;
    }
  }

  lemma FileStep(items: seq<Item>, scaleId: string, generated: seq<string>)
    requires items != [] && |generated| == |items|
    ensures
      var p := FromCells(Cells(NAMES, AsRow(ToCells(items[0]))), scaleId, generated[0]);
      var more := ParseRows(NAMES, Records(items[1..]), scaleId, generated[1..]);
      ParseRows(NAMES, Records(items), scaleId, generated) == ParseOne(false, p, more)
  {
    var rows := Records(items);
    assert rows[1..] == Records(items[1..]);
    RecordNotBlank(items[0]);
  }

  lemma RecordNotBlank(it: Item)
    ensures !Blank(AsRow(ToCells(it)))
  {
    assert 'e' in Flag(it.body.required);
    assert AsRow(ToCells(it))[3] == Flag(it.body.required);
    NotBlank(AsRow(ToCells(it)), 3, 'e');
  }

  method ImportItemsCSV(store: MemoryStore.Store, tenantId: string, owner: Option<string>, scaleId: string,
                        records: seq<seq<string>>, generated: seq<string>)
    returns (r: Result<nat, string>)
    requires store.Valid()
    requires |generated| == |records|
    modifies store`items, store`itemsByScale, store`rows
    ensures r == ImportResult(tenantId, owner, scaleId, records, generated)
    ensures r.Ok? ==> r.value == |ImportedItems(tenantId, owner, scaleId, records, generated)|
    ensures r.Err? ==>
      r.error == if tenantId == "" then "unauthorized"
                 else if owner.None? then "scale not found"
                 else if owner.value != tenantId then "forbidden"
                 else if records == [] then "empty csv"
                 else "stem required in at least one language"
    ensures store.Kept() && Ended(store, old(store.Abs()), ImportedItems(tenantId, owner, scaleId, records, generated))
    ensures
      var items := ImportedItems(tenantId, owner, scaleId, records, generated);
      store.rows == PlaceAll(old(store.rows), |ListingOf(old(store.rows), scaleId)|, items)
  {
    if tenantId == "" {
      return Err("unauthorized");
    }
    if owner.None? {
      return Err("scale not found");
    }
    if owner.value != tenantId {
      return Err("forbidden");
    }
    if records == [] {
      return Err("empty csv");
    }
    MemoryStore.IndexLength(store.items, store.itemsByScale, store.rows, scaleId);
    r := ImportRows(store, scaleId, records[0], records[1..], generated[1..]);
  }

  predicate Admitted(tenantId: string, owner: Option<string>) {
    tenantId != "" && owner == Some(tenantId)
  }

  // A bad row is answered without a count, although the rows before it stay imported.
  function ImportResult(tenantId: string, owner: Option<string>, scaleId: string, records: seq<seq<string>>, generated: seq<string>)
    : Result<nat, string>
    requires |generated| == |records|
  {
    if tenantId == "" then Err("unauthorized")
    else if owner.None? then Err("scale not found")
    else if owner.value != tenantId then Err("forbidden")
    else if records == [] then Err("empty csv")
    else RowsResult(ParseRows(records[0], records[1..], scaleId, generated[1..]))
  }

  function RowsResult(p: Parse): Result<nat, string> {
    if p.complete then Ok(|p.items|) else Err(STEM_REQUIRED)
  }

  // The items inserted: those before the first row without a stem.
  function ImportedItems(tenantId: string, owner: Option<string>, scaleId: string, records: seq<seq<string>>, generated: seq<string>)
    : seq<Item>
    requires |generated| == |records|
  {
    if Admitted(tenantId, owner) && records != [] then ParseRows(records[0], records[1..], scaleId, generated[1..]).items else []
  }

  // The index is right after items were inserted exactly if their ids were unused and differ; the state is then known.
  ghost predicate Ended(store: MemoryStore.Store, before: State, items: seq<Item>)
    reads store, store.ItemObjects()
  {
    && (store.Valid() <==> Fresh(items, before.rows))
    && (store.Valid() ==> store.Abs() == AddAll(before, items))
  }

  // The same while the last ones are still to come; end is what the map will hold.
  ghost predicate Underway(store: MemoryStore.Store, scaleId: string, before: State, end: map<string, Item>, items: seq<Item>, left: seq<Item>)
    reads store, store.ItemObjects()
  {
    && store.Kept()
    && PlaceAll(store.rows, |Listed(store, scaleId)|, left) == end
    && (Right(store) || store.Stale())
    && OnCourse(Right(store), store.Abs(), before, items, left)
  }

  // For a store that keeps its objects, the same as Valid.
  ghost predicate Right(store: MemoryStore.Store)
    reads store
  {
    MemoryStore.Indexed(store.items, store.itemsByScale, store.rows)
  }

  // As long as the index is right, adding the rest to the state now ends where adding all to the one before does.
  ghost predicate OnCourse(right: bool, now: State, before: State, items: seq<Item>, left: seq<Item>) {
    if right then
      && AddAll(before, items) == AddAll(now, left)
      && (Fresh(items, before.rows) <==> Fresh(left, now.rows))
    else
      !Fresh(items, before.rows)
  }

  lemma OnCourseAfterFirst(right: bool, was: State, right': bool, now: State, before: State, items: seq<Item>, left: seq<Item>)
    requires OnCourse(right, was, before, items, left) && left != []
    requires right' <==> right && left[0].id !in was.rows
    requires right' ==> now == AddItem(was, left[0])
    ensures OnCourse(right', now, before, items, left[1..])
  {
    FreshTail(left, was.rows, was.rows[left[0].id := left[0]]);
    if right' {
      FreshTail(left, was.rows, now.rows);
    }
  }

  lemma NothingLeft(store: MemoryStore.Store, scaleId: string, before: State, end: map<string, Item>, items: seq<Item>)
    requires Underway(store, scaleId, before, end, items, [])
    ensures store.Kept() && Ended(store, before, items) && store.rows == end
  {
  }

  method ImportRows(store: MemoryStore.Store, scaleId: string, header: seq<string>, rows: seq<seq<string>>, generated: seq<string>)
    returns (r: Result<nat, string>)
    requires store.Valid()
    requires |generated| == |rows|
    modifies store`items, store`itemsByScale, store`rows
    ensures r == RowsResult(ParseRows(header, rows, scaleId, generated))
    ensures store.Kept() && Ended(store, old(store.Abs()), ParseRows(header, rows, scaleId, generated).items)
    ensures store.rows == PlaceAll(old(store.rows), |old(Listed(store, scaleId))|, ParseRows(header, rows, scaleId, generated).items)
  {
    var created := 0;
    ghost var all := ParseRows(header, rows, scaleId, generated);
    ghost var left := all.items;
    ghost var before, end := store.Abs(), PlaceAll(store.rows, |Listed(store, scaleId)|, left);
    for i := 0 to |rows|
      invariant Underway(store, scaleId, before, end, all.items, left)
      invariant Parse(left, all.complete) == ParseRows(header, rows[i..], scaleId, generated[i..])
      invariant created + |left| == |all.items|
    {
      ghost var read := FromCells(Cells(header, rows[i]), scaleId, generated[i]);
      ParseStep(header, rows, scaleId, generated, i, read, left, all.complete);
      if !Blank(rows[i]) {
        var item := ImportRow(store, scaleId, header, rows[i], generated[i], before, end, all.items, left);
        if item.Err? {
          NothingLeft(store, scaleId, before, end, all.items);
          return Err(item.error);
        }
        left := left[1..];
        created := created + 1;
      }
    }
    NothingLeft(store, scaleId, before, end, all.items);
    return Ok(created);
  }

  method ImportRow(store: MemoryStore.Store, scaleId: string, header: seq<string>, row: seq<string>, generated: string,
                   ghost before: State, ghost end: map<string, Item>, ghost items: seq<Item>, ghost left: seq<Item>)
    returns (item: Result<Item, string>)
    requires Underway(store, scaleId, before, end, items, left)
    requires
      var read := FromCells(Cells(header, row), scaleId, generated);
      read.Ok? ==> left != [] && left[0] == read.value && read.value.scaleId == scaleId
    modifies store`items, store`itemsByScale, store`rows
    ensures item == FromCells(Cells(header, row), scaleId, generated)
    ensures item.Ok? ==> Underway(store, scaleId, before, end, items, left[1..])
    ensures item.Err? ==> Underway(store, scaleId, before, end, items, left)
  {
    ghost var objects := store.ItemObjects();
    assert forall x :: x in objects ==> allocated(x);
    item := BuildItemFromRow(header, row, scaleId, generated);
    assert store.ItemObjects() == objects;
    assert store.Kept();
    if item.Ok? {
      InsertFirst(store, scaleId, item.value, before, end, items, left);
    }
  }

  function Listed(store: MemoryStore.Store, scaleId: string): seq<MemoryStore.StoredItem>
    reads store
  {
    MemoryStore.ListAt(store.itemsByScale, scaleId)
  }

  // Inserts the first of the items still to come.
  method InsertFirst(store: MemoryStore.Store, scaleId: string, it: Item,
                     ghost before: State, ghost end: map<string, Item>, ghost items: seq<Item>, ghost left: seq<Item>)
    requires Underway(store, scaleId, before, end, items, left)
    requires left != [] && left[0] == it && it.scaleId == scaleId
    modifies store`items, store`itemsByScale, store`rows
    ensures Underway(store, scaleId, before, end, items, left[1..])
  {
    InsertItem(store, it);
    OnCourseAfterFirst(old(store.Valid()), old(store.Abs()), store.Valid(), store.Abs(), before, items, left);
  }

  method InsertItem(store: MemoryStore.Store, it: Item)
    requires store.Kept()
    modifies store`items, store`itemsByScale, store`rows
    ensures store.Kept()
    ensures store.rows == Placed(old(store.rows), |old(Listed(store, it.scaleId))|, it)
    ensures |Listed(store, it.scaleId)| == |old(Listed(store, it.scaleId))| + 1
    ensures old(store.Valid()) ==> (store.Valid() <==> it.id !in old(store.rows))
    ensures old(store.Valid()) && store.Valid() ==> store.Abs() == AddItem(old(store.Abs()), it)
    ensures old(store.Valid()) && !store.Valid() ==> store.Stale()
    ensures old(store.Stale()) ==> store.Stale()
  {
    var stored := new MemoryStore.StoredItem(it);
    assert store.Valid() == old(store.Valid());
    store.AddItem(stored);
    assert |multiset(Listed(store, it.scaleId))| == |multiset(old(Listed(store, it.scaleId)))| + 1;
  }

  // What the next row says about the items still to come.
  lemma ParseStep(header: seq<string>, rows: seq<seq<string>>, scaleId: string, generated: seq<string>, i: nat,
                  read: Result<Item, string>, left: seq<Item>, complete: bool)
    requires |generated| == |rows| && i < |rows|
    requires read == FromCells(Cells(header, rows[i]), scaleId, generated[i])
    requires Parse(left, complete) == ParseRows(header, rows[i..], scaleId, generated[i..])
    ensures !Blank(rows[i]) && read.Err? ==> left == [] && !complete
    ensures !Blank(rows[i]) && read.Ok? ==> left != [] && left[0] == read.value && read.value.scaleId == scaleId
    ensures Blank(rows[i]) || read.Ok? ==>
      Parse(if Blank(rows[i]) then left else left[1..], complete) == ParseRows(header, rows[i + 1..], scaleId, generated[i + 1..])
  {
    assert rows[i..][1..] == rows[i + 1..] && generated[i..][1..] == generated[i + 1..];
  }

  lemma FreshTail(items: seq<Item>, rows: map<string, Item>, grown: map<string, Item>)
    requires items != [] && grown.Keys == rows.Keys + {items[0].id}
    ensures Fresh(items, rows) <==> items[0].id !in rows && Fresh(items[1..], grown)
  {
    if Fresh(items, rows) {
      FreshRest(items, rows, grown);
    }
    if items[0].id !in rows && Fresh(items[1..], grown) {
      FreshWhole(items, rows, grown);
    }
  }

  lemma FreshRest(items: seq<Item>, rows: map<string, Item>, grown: map<string, Item>)
    requires items != [] && grown.Keys == rows.Keys + {items[0].id}
    requires Fresh(items, rows)
    ensures Fresh(items[1..], grown)
  {
    var rest := items[1..];
    forall i | 0 <= i < |rest| ensures rest[i].id !in grown && ItemIds(rest)[i] == ItemIds(items)[i + 1] {
      assert ItemIds(items)[0] != ItemIds(items)[i + 1];
    }
  }

  lemma FreshWhole(items: seq<Item>, rows: map<string, Item>, grown: map<string, Item>)
    requires items != [] && grown.Keys == rows.Keys + {items[0].id}
    requires items[0].id !in rows && Fresh(items[1..], grown)
    ensures Fresh(items, rows)
  {
    forall i | 1 <= i < |items| ensures items[i].id !in rows && items[i].id != items[0].id {
      assert items[i] == items[1..][i - 1];
    }
    forall i, j | 0 <= i < j < |items| ensures ItemIds(items)[i] != ItemIds(items)[j] {
      assert i > 0 ==> ItemIds(items[1..])[i - 1] != ItemIds(items[1..])[j - 1];
    }
  }

  // ----- export, then import -----

  predicate AllPlaced(items: seq<Item>) {
    forall i :: 0 <= i < |items| ==> items[i].order > 0
  }

  // Items that have a position are stored as they come.
  lemma {:induction false} AddAllRows(st: State, items: seq<Item>)
    requires Fresh(items, st.rows) && AllPlaced(items)
    ensures var rows := AddAll(st, items).rows;
            && (forall id :: id in rows <==> id in st.rows || id in ItemIds(items))
            && (forall id :: id in st.rows ==> rows[id] == st.rows[id])
            && (forall i :: 0 <= i < |items| ==> items[i].id in rows && rows[items[i].id] == items[i])
    decreases |items|
  {
    if items != [] {
      var it, rest := items[0], items[1..];
      var next := AddItem(st, it);
      FreshTail(items, st.rows, next.rows);
      AddAllRows(next, rest);
      AddedFirst(st.rows, it, rest, AddAll(next, rest).rows);
      assert [it] + rest == items;
    }
  }

  lemma AddedFirst(was: map<string, Item>, it: Item, rest: seq<Item>, rows: map<string, Item>)
    requires it.id !in was
    requires forall id :: id in rows <==> id in was[it.id := it] || id in ItemIds(rest)
    requires forall id :: id in was[it.id := it] ==> rows[id] == was[it.id := it][id]
    requires forall i :: 0 <= i < |rest| ==> rest[i].id in rows && rows[rest[i].id] == rest[i]
    ensures
      var items := [it] + rest;
      && (forall id :: id in rows <==> id in was || id in ItemIds(items))
      && (forall id :: id in was ==> rows[id] == was[id])
      && (forall i :: 0 <= i < |items| ==> items[i].id in rows && rows[items[i].id] == items[i])
  {
    var items := [it] + rest;
    assert ItemIds(items) == [it.id] + ItemIds(rest);
    assert forall i :: 1 <= i < |items| ==> items[i] == rest[i - 1];
  }

  // The scale is listed under its new id as it was, item by item, and no other scale changes.
  ghost predicate Restored(rows: map<string, Item>, scaleId: string, before: map<string, Item>, now: map<string, Item>, target: string) {
    && ListingOf(now, target) == ListingOf(rows, scaleId)
    && (forall id :: id in ListingOf(rows, scaleId) ==> id in rows && id in now && now[id] == rows[id].(scaleId := target))
    && (forall other :: other != target ==> ListingOf(now, other) == ListingOf(before, other))
  }

  // A scale exported from one store and imported into an empty scale of another one.
  lemma ImportRestoresListing(
    items: seq<Item>, rows: map<string, Item>, scaleId: string, st: State, target: string, generated: seq<string>)
    requires Enumerates(items, rows, scaleId) && AllPlaced(items)
    requires var file := ByPosition(items);
             AllInRange(file) && AllNormal(file) && |generated| == |file| && AllTrimmed(generated)
    requires forall id :: id in ListingOf(rows, scaleId) ==> id !in st.rows
    requires ItemsOf(st.rows, target) == {}
    ensures var p := ParseRows(NAMES, Records(ByPosition(items)), target, generated);
            && p.complete && Fresh(p.items, st.rows)
            && Restored(rows, scaleId, st.rows, AddAll(st, p.items).rows, target)
  {
    var file := ByPosition(items);
    ExportFollowsListing(items, rows, scaleId);
    PlacedShuffled(items);
    FileComesBack(file, target, generated);
    AddMoved(file, rows, scaleId, st, target);
  }

  // Importing a scale's own file into the store it comes from finds every id in use.
  lemma OwnFileNotFresh(items: seq<Item>, rows: map<string, Item>, scaleId: string, generated: seq<string>)
    requires Enumerates(items, rows, scaleId) && items != []
    requires var file := ByPosition(items);
             AllInRange(file) && AllNormal(file) && |generated| == |file| && AllTrimmed(generated)
    ensures !Fresh(ParseRows(NAMES, Records(ByPosition(items)), scaleId, generated).items, rows)
  {
    var file := ByPosition(items);
    ByPositionSorts(items);
    FileComesBack(file, scaleId, generated);
    SameMembers(items, file);
    assert items[0] in file;
    assert file[0] in items && Moved(file, scaleId)[0].id == file[0].id;
  }

  lemma PlacedShuffled(items: seq<Item>)
    requires AllPlaced(items)
    ensures AllPlaced(ByPosition(items))
  {
    var file := ByPosition(items);
    ByPositionSorts(items);
    SameMembers(items, file);
    forall i | 0 <= i < |file| ensures file[i].order > 0 {
      assert file[i] in items;
    }
  }

  lemma AddMoved(file: seq<Item>, rows: map<string, Item>, scaleId: string, st: State, target: string)
    requires Enumerates(file, rows, scaleId) && ItemIds(file) == ListingOf(rows, scaleId) && AllPlaced(file)
    requires forall id :: id in ListingOf(rows, scaleId) ==> id !in st.rows
    requires ItemsOf(st.rows, target) == {}
    ensures Fresh(Moved(file, target), st.rows)
    ensures Restored(rows, scaleId, st.rows, AddAll(st, Moved(file, target)).rows, target)
  {
    var moved := Moved(file, target);
    assert ItemIds(moved) == ItemIds(file);
    forall i | 0 <= i < |moved| ensures moved[i].id !in st.rows {
      assert ItemIds(file)[i] in ItemIds(file);
    }
    AddAllRows(st, moved);
    var now := AddAll(st, moved).rows;
    forall i | 0 <= i < |file| ensures now[file[i].id] == file[i].(scaleId := target) {
      assert now[moved[i].id] == moved[i];
    }
    MovedListing(file, rows, scaleId, st.rows, now, target);
  }

  lemma MovedListing(
    file: seq<Item>, rows: map<string, Item>, scaleId: string, before: map<string, Item>, now: map<string, Item>, target: string)
    requires Enumerates(file, rows, scaleId) && ItemIds(file) == ListingOf(rows, scaleId)
    requires ItemsOf(before, target) == {}
    requires forall id :: id in now <==> id in before || id in ItemIds(file)
    requires forall id :: id in before ==> id !in ItemIds(file) && now[id] == before[id]
    requires forall i :: 0 <= i < |file| ==> now[file[i].id] == file[i].(scaleId := target)
    ensures Restored(rows, scaleId, before, now, target)
  {
    var ids := ItemIds(file);
    ListingOfIsListing(rows, scaleId);
    forall id | id in ids ensures id in rows && id in now && now[id] == rows[id].(scaleId := target) {
      var i :| 0 <= i < |ids| && ids[i] == id;
      assert file[i] in file;
    }
    assert forall id :: id in before ==> before[id].scaleId != target by {
      assert forall id :: id in before && before[id].scaleId == target ==> id in ItemsOf(before, target);
    }
    assert IsListing(now, target, ids);
    IsListingOf(now, target, ids);
    forall other | other != target ensures ListingOf(now, other) == ListingOf(before, other) {
      OthersListed(ids, before, now, target, other);
    }
  }

  lemma OthersListed(ids: seq<string>, before: map<string, Item>, now: map<string, Item>, target: string, other: string)
    requires other != target
    requires forall id :: id in now <==> id in before || id in ids
    requires forall id :: id in before ==> now[id] == before[id]
    requires forall id :: id in ids ==> now[id].scaleId == target
    ensures ListingOf(now, other) == ListingOf(before, other)
  {
    ListingOfIsListing(before, other);
    OtherScaleUntouched(before, now, other, ListingOf(before, other));
  }

  predicate SameTable(rows: seq<seq<string>>, moved: seq<seq<string>>, width: nat, at: seq<nat>) {
    && |rows| == |moved|
    && (rows == [] || (|rows[0]| == width && SameCells(rows[0], moved[0], at) && SameTable(rows[1..], moved[1..], width, at)))
  }

  // The same file with its columns moved around, renamed in case or padded reads as the same items.
  lemma {:induction false} ImportIgnoresLayout(
    header: seq<string>, rows: seq<seq<string>>, movedHeader: seq<string>, movedRows: seq<seq<string>>, at: seq<nat>,
    scaleId: string, generated: seq<string>)
    requires |movedRows| == |rows| == |generated|
    requires SameColumns(header, movedHeader, at) && SameTable(rows, movedRows, |header|, at)
    ensures ParseRows(movedHeader, movedRows, scaleId, generated) == ParseRows(header, rows, scaleId, generated)
    decreases |rows|
  {
    if rows != [] {
      ImportIgnoresLayout(header, rows[1..], movedHeader, movedRows[1..], at, scaleId, generated[1..]);
      CellsIgnoreLayout(header, rows[0], movedHeader, movedRows[0], at);
      SameBlank(rows[0], movedRows[0], at);
    }
  }

  lemma BlankRow(row: seq<string>)
    ensures Blank(row) <==> forall i :: 0 <= i < |row| ==> Trim(row[i]) == ""
  {
    TrimEmpty(Concat(row));
    if Blank(row) {
      forall i | 0 <= i < |row| ensures Trim(row[i]) == "" {
        TrimEmpty(row[i]);
        forall k | 0 <= k < |row[i]| ensures IsSpace(row[i][k]) {
          ConcatHas(row, i, row[i][k]);
        }
      }
    } else {
      var k :| 0 <= k < |Concat(row)| && !IsSpace(Concat(row)[k]);
      var i := ConcatFrom(row, Concat(row)[k]);
      TrimKeeps(row[i], Concat(row)[k]);
    }
  }

  lemma {:induction false} ConcatFrom(row: seq<string>, c: char) returns (i: nat)
    requires c in Concat(row)
    ensures i < |row| && c in row[i]
  {
    if c in row[0] {
      i := 0;
    } else {
      var j := ConcatFrom(row[1..], c);
      i := j + 1;
    }
  }

  lemma TrimEmpty(s: string)
    ensures Trim(s) == "" <==> forall k :: 0 <= k < |s| ==> IsSpace(s[k])
  {
    if Trim(s) == "" {
      forall k | 0 <= k < |s| ensures IsSpace(s[k]) {
        if !IsSpace(s[k]) {
          TrimKeeps(s, s[k]);
        }
      }
    } else {
      TrimWithin(s, Trim(s)[0]);
      TrimIsTrimmed(s);
    }
  }

  lemma SameBlank(row: seq<string>, moved: seq<string>, at: seq<nat>)
    requires SameCells(row, moved, at) && forall k :: 0 <= k < |row| ==> k in at
    ensures Blank(moved) <==> Blank(row)
  {
    BlankRow(row);
    BlankRow(moved);
    if Blank(moved) {
      forall k | 0 <= k < |row| ensures Trim(row[k]) == "" {
        assert k in at;
        var j :| 0 <= j < |at| && at[j] == k;
        assert moved[j] == row[k];
      }
    }
  }
}
