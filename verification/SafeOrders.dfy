// For which orders the memory store and SQLite end up showing the same list.
module SafeOrders {
  import opened Survey
  import opened Wrappers
  import opened Listing
  import opened Reordering
  import opened Text
  import opened ReorderAgreement
  import Catalogue
  import SqliteStore

  // Both stores show the same list after this order, whatever rows the scale has.
  ghost predicate SafeOn(order: seq<string>, rows: map<string, Item>, scaleId: string) {
    ListingOf(SqliteStore.Reorder(rows, scaleId, order), scaleId)
    == ListingOf(Catalogue.Reorder(Catalogue.EMPTY.(rows := rows), scaleId, order).rows, scaleId)
  }

  ghost predicate Safe(order: seq<string>) {
    forall rows, scaleId :: "" !in ItemsOf(rows, scaleId) ==> SafeOn(order, rows, scaleId)
  }

  lemma SafeOnList(order: seq<string>, rows: map<string, Item>, scaleId: string)
    ensures SafeOn(order, rows, scaleId)
      <==> Reordered(ListingOf(rows, scaleId), Cleaned(order)) == Reordered(ListingOf(rows, scaleId), order)
  {
    Catalogue.ReorderLists(Catalogue.EMPTY.(rows := rows), scaleId, order, scaleId);
    SqliteReorderLists(rows, scaleId, order);
  }

  // ----- tables that list given ids -----

  const PLAIN := Body(false, None, "", None, None, 0, 0, 0, false, None, false)

  function RowsFor(ids: seq<string>): map<string, Item> {
    map id | id in ids :: Item(id, "S", FirstIndex(ids, id) + 1, PLAIN)
  }

  lemma RowsForList(ids: seq<string>)
    requires NoDuplicates(ids)
    ensures ListingOf(RowsFor(ids), "S") == ids
    ensures forall id :: id in ItemsOf(RowsFor(ids), "S") <==> id in ids
  {
    var rows := RowsFor(ids);
    forall i | 0 <= i < |ids| ensures ids[i] in rows && rows[ids[i]].order == i + 1 {
      assert ids[i] in ids && FirstIndex(ids, ids[i]) <= i;
    }
    assert IsListing(rows, "S", ids);
    IsListingOf(rows, "S", ids);
  }

  // The stores disagree on some table as soon as they disagree on some list.
  lemma UnsafeOn(order: seq<string>, ids: seq<string>)
    requires NoDuplicates(ids) && Reordered(ids, Cleaned(order)) != Reordered(ids, order)
    ensures !SafeOn(order, RowsFor(ids), "S")
  {
    RowsForList(ids);
    SafeOnList(order, RowsFor(ids), "S");
  }

  // ----- an id nobody mentions -----

  function Longest(order: seq<string>): (n: nat)
    ensures forall id :: id in order ==> |id| <= n
  {
    if order == [] then 0
    else
      var rest := Longest(order[1..]);
      assert order == [order[0]] + order[1..];
      if |order[0]| > rest then |order[0]| else rest
  }

  lemma {:induction false} CleanedComesFrom(order: seq<string>, x: string)
    ensures x in Cleaned(order) <==> x != "" && exists id :: id in order && Trim(id) == x
  {
    if order != [] {
      var n := |order| - 1;
      assert order == order[..n] + [order[n]];
      CleanedComesFrom(order[..n], x);
    }
  }

  lemma Unmentioned(order: seq<string>) returns (x: string)
    ensures x != "" && Trimmed(x) && x !in order && x !in Cleaned(order)
  {
    x := seq(Longest(order) + 1, i => 'x');
    CleanedComesFrom(order, x);
    assert !IsSpace('x');
    forall id | id in order ensures |Trim(id)| < |x| {
    }
  }

  lemma FirstTwoIn(xs: seq<string>)
    ensures |xs| > 0 ==> xs[0] in xs
    ensures |xs| > 1 ==> xs[1] in xs
  {
  }

  lemma OnlyElement(xs: seq<string>, u: string)
    requires NoDuplicates(xs) && forall x :: x in xs <==> x == u
    ensures xs == [u]
  {
    assert u in xs;
    FirstTwoIn(xs);
  }

  lemma NoElement(xs: seq<string>)
    requires forall x :: x !in xs
    ensures xs == []
  {
    FirstTwoIn(xs);
  }

  // Whoever knows the second of two items moves it in front of the first; whoever does not leaves the two alone.
  lemma TwoItems(order: seq<string>, ids: seq<string>)
    requires |ids| == 2 && ids[0] != ids[1] && ids[0] !in order
    ensures Reordered(ids, order) == if ids[1] in order then [ids[1], ids[0]] else ids
  {
    assert ids == [ids[0], ids[1]];
    if ids[1] in order {
      OnlyElement(Listed(order, ids), ids[1]);
      RestOfTwo(ids[0], ids[1], [ids[1]]);
    } else {
      NoElement(Listed(order, ids));
      RestOfTwo(ids[0], ids[1], []);
    }
  }

  // An id only one of the stores finds, behind one that neither does.
  lemma FoundByOne(order: seq<string>, u: string) returns (ids: seq<string>)
    requires u != "" && (u in order <==> u !in Cleaned(order))
    ensures forall id :: id in ids ==> id == u || (id != "" && Trimmed(id))
    ensures NoDuplicates(ids) && Reordered(ids, Cleaned(order)) != Reordered(ids, order)
  {
    var x := Unmentioned(order);
    ids := [x, u];
    OneMovesIt(order, Cleaned(order), ids);
  }

  lemma OneMovesIt(order: seq<string>, other: seq<string>, ids: seq<string>)
    requires |ids| == 2 && ids[0] != ids[1] && ids[0] !in order && ids[0] !in other
    requires ids[1] in order <==> ids[1] !in other
    ensures Reordered(ids, other) != Reordered(ids, order)
  {
    TwoItems(order, ids);
    TwoItems(other, ids);
    assert [ids[1], ids[0]][0] != ids[0];
  }

  // ----- any ids -----

  // Whatever the items are called, the stores agree exactly on the orders that hold trimmed ids only.
  lemma SafeIffTrimmed(order: seq<string>)
    ensures Safe(order) <==> forall id :: id in order ==> Trimmed(id)
  {
    if forall id :: id in order ==> Trimmed(id) {
      forall rows, scaleId | "" !in ItemsOf(rows, scaleId) ensures SafeOn(order, rows, scaleId) {
        ListingOfIsListing(rows, scaleId);
        TrimmedOrder(ListingOf(rows, scaleId), order);
        SafeOnList(order, rows, scaleId);
      }
    } else {
      var u :| u in order && !Trimmed(u);
      UntrimmedIsUnsafe(order, u);
    }
  }

  lemma UntrimmedIsUnsafe(order: seq<string>, u: string)
    requires u in order && !Trimmed(u)
    ensures !Safe(order)
  {
    assert u !in Cleaned(order);
    var ids := FoundByOne(order, u);
    UnsafeOn(order, ids);
    RowsForList(ids);
  }

  // ----- trimmed item ids -----

  // The entries an exact comparison with trimmed ids can find.
  function Mentions(order: seq<string>): (r: seq<string>)
    ensures forall id :: id in r <==> id in order && id != "" && Trimmed(id)
  {
    if order == [] then []
    else
      var n := |order| - 1;
      assert order == order[..n] + [order[n]];
      if order[n] != "" && Trimmed(order[n]) then Mentions(order[..n]) + [order[n]] else Mentions(order[..n])
  }

  ghost predicate TrimmedIds(rows: map<string, Item>, scaleId: string) {
    forall id :: id in ItemsOf(rows, scaleId) ==> id != "" && Trimmed(id)
  }

  ghost predicate SafeForTrimmedIds(order: seq<string>) {
    forall rows, scaleId :: TrimmedIds(rows, scaleId) ==> SafeOn(order, rows, scaleId)
  }

  // On trimmed item ids the stores agree exactly on the orders that, trimmed, first mention the same ids in the same
  // sequence as their already trimmed ids do: [" a", "a"] is one, [" a"] is none.
  lemma SafeForTrimmedIff(order: seq<string>)
    ensures SafeForTrimmedIds(order) <==> SqliteStore.Distinct(Cleaned(order)) == SqliteStore.Distinct(Mentions(order))
  {
    if SqliteStore.Distinct(Cleaned(order)) == SqliteStore.Distinct(Mentions(order)) {
      forall rows, scaleId | TrimmedIds(rows, scaleId) ensures SafeOn(order, rows, scaleId) {
        var ids := ListingOf(rows, scaleId);
        ListingOfIsListing(rows, scaleId);
        ListedMentions(order, ids);
        ListedTwice(Cleaned(order), Cleaned(order), ids);
        ListedTwice(Mentions(order), Mentions(order), ids);
        SafeOnList(order, rows, scaleId);
      }
    } else {
      NewMentionIsUnsafe(order);
    }
  }

  lemma {:induction false} ListedMentions(order: seq<string>, ids: seq<string>)
    requires forall id :: id in ids ==> id != "" && Trimmed(id)
    ensures Listed(Mentions(order), ids) == Listed(order, ids)
  {
    if order != [] {
      var n := |order| - 1;
      ListedMentions(order[..n], ids);
      assert order == order[..n] + [order[n]];
      ListedAppend(order[..n], order[n], ids);
      MentionsLast(order, ids);
    }
  }

  lemma MentionsLast(order: seq<string>, ids: seq<string>)
    requires order != []
    ensures var last, before := order[|order| - 1], Mentions(order[..|order| - 1]);
            Listed(Mentions(order), ids) ==
              if last != "" && Trimmed(last) && last in ids && last !in Listed(before, ids) then Listed(before, ids) + [last]
              else Listed(before, ids)
  {
    ListedAppend(Mentions(order[..|order| - 1]), order[|order| - 1], ids);
  }

  // Listing in two goes is listing in one, if the first keeps whatever the second looks for.
  lemma {:induction false} ListedTwice(order: seq<string>, kept: seq<string>, ids: seq<string>)
    requires forall id :: id in order && id in ids ==> id in kept
    ensures Listed(Listed(order, kept), ids) == Listed(order, ids)
  {
    if order != [] {
      var n := |order| - 1;
      assert order == order[..n] + [order[n]];
      ListedTwice(order[..n], kept, ids);
      ListedAppend(order[..n], order[n], kept);
      ListedAppend(order[..n], order[n], ids);
      ListedAppend(Listed(order[..n], kept), order[n], ids);
    }
  }

  lemma {:induction false} SameMembers(order: seq<string>, xs: seq<string>, ys: seq<string>)
    requires forall id :: id in order ==> (id in xs <==> id in ys)
    ensures Listed(order, xs) == Listed(order, ys)
  {
    if order != [] {
      var n := |order| - 1;
      assert order == order[..n] + [order[n]];
      SameMembers(order[..n], xs, ys);
      ListedAppend(order[..n], order[n], xs);
      ListedAppend(order[..n], order[n], ys);
    }
  }

  lemma NewMentionIsUnsafe(order: seq<string>)
    requires SqliteStore.Distinct(Cleaned(order)) != SqliteStore.Distinct(Mentions(order))
    ensures !SafeForTrimmedIds(order)
  {
    if a :| a in Cleaned(order) && a !in Mentions(order) {
      UntrimmedMention(order, a);
    } else {
      OtherSequence(order);
    }
  }

  // An id that is mentioned with blanks around it only.
  lemma UntrimmedMention(order: seq<string>, a: string)
    requires a in Cleaned(order) && a !in Mentions(order)
    ensures !SafeForTrimmedIds(order)
  {
    assert a != "" && Trimmed(a) && a !in order;
    var ids := FoundByOne(order, a);
    UnsafeOn(order, ids);
    RowsForList(ids);
  }

  // The same ids, first mentioned in another sequence.
  lemma OtherSequence(order: seq<string>)
    requires SqliteStore.Distinct(Cleaned(order)) != SqliteStore.Distinct(Mentions(order))
    requires forall a :: a in Cleaned(order) ==> a in Mentions(order)
    ensures !SafeForTrimmedIds(order)
  {
    var seen, asked := SqliteStore.Distinct(Cleaned(order)), SqliteStore.Distinct(Mentions(order));
    forall id | id in Mentions(order) ensures id in Cleaned(order) {
      TrimIsTrimmed(id);
      CleanedComesFrom(order, id);
    }
    ListedMentions(order, asked);
    SameMembers(Mentions(order), asked, Mentions(order));
    SameMembers(Cleaned(order), asked, Cleaned(order));
    assert Listed(order, asked) == asked && Listed(Cleaned(order), asked) == seen;
    NoElement(Rest(asked, asked));
    NoElement(Rest(asked, seen));
    assert asked + [] == asked && seen + [] == seen;
    RowsForList(asked);
    UnsafeOn(order, asked);
    assert TrimmedIds(RowsFor(asked), "S");
  }
}
