// Over which histories an item without a position is appended at the end of its scale, as internal/api/store.go:469
// promises.
module Positions {
  import opened Survey
  import opened Listing
  import opened Reordering
  import opened Catalogue

  ghost predicate IsLast(st: State, scaleId: string, id: string) {
    var shown := ListingOf(st.rows, scaleId);
    shown != [] && shown[|shown| - 1] == id
  }

  // No position in the scale is given by hand, and no item of it is deleted but the last.
  ghost predicate Orderly(st: State, op: Op, scaleId: string) {
    match op
    case AddItemOp(it) => it.scaleId == scaleId ==> it.order <= 0
    case UpdateItemOp(patch) => patch.id in st.rows && st.rows[patch.id].scaleId == scaleId ==> patch.order <= 0
    case DeleteItemOp(id) => id in st.rows && st.rows[id].scaleId == scaleId ==> IsLast(st, scaleId, id)
    case _ => true
  }

  ghost predicate OrderlyRun(st: State, ops: seq<Op>, scaleId: string)
    decreases ops
  {
    ops == [] || (Enabled(st, ops[0]) && Orderly(st, ops[0], scaleId) && OrderlyRun(Apply(st, ops[0]), ops[1..], scaleId))
  }

  // The same items at the same positions are shown the same.
  lemma SamePositions(rows: map<string, Item>, rows': map<string, Item>, scaleId: string)
    requires ItemsOf(rows', scaleId) == ItemsOf(rows, scaleId)
    requires forall id :: id in ItemsOf(rows, scaleId) ==> rows'[id].order == rows[id].order
    ensures ListingOf(rows', scaleId) == ListingOf(rows, scaleId)
  {
    var shown := ListingOf(rows, scaleId);
    ListingOfIsListing(rows, scaleId);
    assert forall id :: id in shown <==> id in ItemsOf(rows, scaleId);
    forall i, j | 0 <= i < j < |shown|
      ensures shown[i] in rows' && shown[j] in rows' && KeyLess(rows'[shown[i]].order, shown[i], rows'[shown[j]].order, shown[j])
    {
      assert shown[i] in shown && shown[j] in shown;
    }
    assert Exactly(rows', scaleId, shown);
    IsListingOf(rows', scaleId, shown);
  }

  lemma GaplessAsBefore(st: State, after: State, scaleId: string)
    requires Gapless(st.rows, scaleId) && ItemsOf(after.rows, scaleId) == ItemsOf(st.rows, scaleId)
    requires forall id :: id in ItemsOf(st.rows, scaleId) ==> after.rows[id].order == st.rows[id].order
    ensures Gapless(after.rows, scaleId)
  {
    SamePositions(st.rows, after.rows, scaleId);
    ListingOfIsListing(st.rows, scaleId);
    var shown := ListingOf(st.rows, scaleId);
    assert forall i :: 0 <= i < |shown| ==> shown[i] in shown;
  }

  // Then the position the code picks is the next one.
  lemma NextIsLast(st: State, it: Item)
    requires Gapless(st.rows, it.scaleId) && it.id !in st.rows && it.order <= 0
    ensures ListingOf(AddItem(st, it).rows, it.scaleId) == ListingOf(st.rows, it.scaleId) + [it.id]
    ensures Gapless(AddItem(st, it).rows, it.scaleId)
  {
    var shown := ListingOf(st.rows, it.scaleId);
    ListingOfIsListing(st.rows, it.scaleId);
    forall id | id in ItemsOf(st.rows, it.scaleId)
      ensures KeyLess(st.rows[id].order, id, |ItemsOf(st.rows, it.scaleId)| + 1, it.id)
    {
      assert id in shown;
      var i :| 0 <= i < |shown| && shown[i] == id;
      assert st.rows[shown[i]].order == i + 1;
    }
    DefaultPositionAppends(st, it);
  }

  lemma DeletedLast(st: State, id: string, scaleId: string)
    requires Gapless(st.rows, scaleId) && id in st.rows && st.rows[id].scaleId == scaleId && IsLast(st, scaleId, id)
    ensures Gapless(DeleteItem(st, id).rows, scaleId)
  {
    var shown := ListingOf(st.rows, scaleId);
    var n := |shown| - 1;
    ListingOfIsListing(st.rows, scaleId);
    DeleteItemLists(st, id, scaleId);
    assert forall i :: 0 <= i < n ==> shown[..n][i] != id;
    NothingTaken(shown[..n], id);
    assert Rest(shown, [id]) == shown[..n];
  }

  lemma {:induction false} NothingTaken(ids: seq<string>, id: string)
    requires id !in ids
    ensures Rest(ids, [id]) == ids
  {
    if ids != [] {
      var n := |ids| - 1;
      NothingTaken(ids[..n], id);
      assert ids == ids[..n] + [ids[n]];
    }
  }

  // Every other step of the scale's own, and every step elsewhere, leaves the positions alone.
  ghost predicate LeavesPositions(st: State, op: Op, scaleId: string) {
    match op
    case AddItemOp(it) => it.scaleId != scaleId
    case DeleteItemOp(id) => id in st.rows ==> st.rows[id].scaleId != scaleId
    case ReorderOp(s, _) => s != scaleId
    case DeleteScaleOp(s) => s != scaleId || s !in st.scales
    case _ => true
  }

  lemma OtherStepsKeepPositions(st: State, op: Op, scaleId: string)
    requires Gapless(st.rows, scaleId) && Enabled(st, op) && Orderly(st, op, scaleId) && LeavesPositions(st, op, scaleId)
    ensures Gapless(Apply(st, op).rows, scaleId)
  {
    if op.ReorderOp? {
      ForeignReorder(st, op.scaleId, op.order, scaleId);
    }
    GaplessAsBefore(st, Apply(st, op), scaleId);
  }

  lemma ForeignReorder(st: State, s: string, order: seq<string>, scaleId: string)
    requires s != scaleId
    ensures ItemsOf(Reorder(st, s, order).rows, scaleId) == ItemsOf(st.rows, scaleId)
    ensures forall id :: id in ItemsOf(st.rows, scaleId) ==> Reorder(st, s, order).rows[id].order == st.rows[id].order
  {
    ListingOfIsListing(st.rows, s);
    var moved := Reordered(ListingOf(st.rows, s), order);
    assert forall id :: id in moved ==> id in ListingOf(st.rows, s);
  }

  lemma DeletedScale(st: State, scaleId: string)
    requires scaleId in st.scales
    ensures Gapless(DeleteScale(st, scaleId).rows, scaleId)
  {
    ListingOfIsListing(DeleteScale(st, scaleId).rows, scaleId);
    assert ItemsOf(DeleteScale(st, scaleId).rows, scaleId) == {};
  }

  lemma StepKeepsPositions(st: State, op: Op, scaleId: string)
    requires Gapless(st.rows, scaleId) && Enabled(st, op) && Orderly(st, op, scaleId)
    ensures Gapless(Apply(st, op).rows, scaleId)
  {
    if LeavesPositions(st, op, scaleId) {
      OtherStepsKeepPositions(st, op, scaleId);
    } else {
      match op {
        case AddItemOp(it) => NextIsLast(st, it);
        case DeleteItemOp(id) => DeletedLast(st, id, scaleId);
        case ReorderOp(s, order) => ReorderLists(st, s, order, scaleId);
        case DeleteScaleOp(s) => DeletedScale(st, s);
      }
    }
  }

  lemma {:induction false} RunKeepsPositions(st: State, ops: seq<Op>, scaleId: string)
    requires Gapless(st.rows, scaleId) && OrderlyRun(st, ops, scaleId)
    ensures IsRun(st, ops) && Gapless(Run(st, ops).rows, scaleId)
    decreases ops
  {
    if ops != [] {
      StepKeepsPositions(st, ops[0], scaleId);
      RunKeepsPositions(Apply(st, ops[0]), ops[1..], scaleId);
    }
  }

  // From the empty store on, as long as positions in the scale are left to the store and to reordering and only last
  // items are deleted, every item without a position is appended at the end, at the next position.
  lemma OrderlyRunsAppend(ops: seq<Op>, it: Item)
    requires OrderlyRun(EMPTY, ops, it.scaleId) && it.id !in Run(EMPTY, ops).rows && it.order <= 0
    ensures var st := Run(EMPTY, ops);
            ListingOf(AddItem(st, it).rows, it.scaleId) == ListingOf(st.rows, it.scaleId) + [it.id]
            && AddItem(st, it).rows[it.id].order == |ListingOf(st.rows, it.scaleId)| + 1
  {
    ListingOfIsListing(EMPTY.rows, it.scaleId);
    assert ItemsOf(EMPTY.rows, it.scaleId) == {};
    RunKeepsPositions(EMPTY, ops, it.scaleId);
    NextIsLast(Run(EMPTY, ops), it);
    ListingOfIsListing(Run(EMPTY, ops).rows, it.scaleId);
  }
}
