// Whole runs of the memory store: whatever operations follow one another, the maps, lists and objects stay in step and
// hold what the abstract run holds.
module StoreRuns {
  import opened Survey
  import opened Catalogue
  import opened MemoryStore

  // The store answers for no object but its own: what it holds after an operation it held before or has just made.
  twostate predicate OwnObjects(store: Store)
    reads store, store.ItemObjects(), store.e2ee
  {
    && (forall x :: x in store.ItemObjects() ==> x in old(store.ItemObjects()) || fresh(x))
    && (forall x :: x in store.e2ee ==> x in old(store.e2ee) || fresh(x))
  }

  method AddNew(store: Store, item: Item)
    requires store.Valid() && store.SealedMirrored() && item.id !in store.rows
    modifies store
    ensures store.Valid() && store.SealedMirrored() && store.Abs() == AddItem(old(store.Abs()), item)
    ensures OwnObjects(store)
  {
    var it := new StoredItem(item);
    store.UnknownIfNotHeld(it);
    store.AddItem(it);
  }

  method PerformOnItems(store: Store, op: Op)
    requires op.AddItemOp? || op.UpdateItemOp? || op.DeleteItemOp? || op.DeleteScaleOp? || op.ReorderOp? || op.AddScaleOp?
    requires store.Valid() && store.SealedMirrored() && Enabled(store.Abs(), op)
    modifies store, store.ItemObjects()
    ensures store.Valid() && store.SealedMirrored() && store.Abs() == Apply(old(store.Abs()), op)
    ensures OwnObjects(store)
  {
    match op {
      case AddScaleOp(scaleId) => store.AddScale(scaleId);
      case AddItemOp(item) => AddNew(store, item);
      case UpdateItemOp(item) => var _ := store.UpdateItem(item);
      case DeleteItemOp(id) => var _ := store.DeleteItem(id);
      case DeleteScaleOp(scaleId) => var _ := store.DeleteScale(scaleId);
      case ReorderOp(scaleId, order) => var _ := store.ReorderItems(scaleId, order);
    }
  }

  method PerformOnAnswers(store: Store, op: Op)
    requires op.SubmitOp? || op.DeleteParticipantOp? || op.PurgeOp? || op.CleanupOp?
    requires store.Valid() && store.SealedMirrored() && Enabled(store.Abs(), op)
    modifies store
    ensures store.Valid() && store.SealedMirrored() && store.Abs() == Apply(old(store.Abs()), op)
    ensures OwnObjects(store)
  {
    match op {
      case SubmitOp(pid, email, answers) =>
        store.AddParticipant(pid, email);
        store.AddResponses(answers);
      case DeleteParticipantOp(pid, hard) => var _ := store.DeleteParticipantByID(pid, hard);
      case PurgeOp(scaleId) => var _ := store.DeleteResponsesByScale(scaleId);
      case CleanupOp(cutoff) => var _ := store.CleanupBefore(cutoff);
    }
  }

  method PerformOnSealed(store: Store, op: Op)
    requires op.IntakeOp? || op.RewrapOp? || op.DeleteSealedOp?
    requires store.Valid() && store.SealedMirrored()
    modifies store, store.e2ee
    ensures store.Valid() && store.SealedMirrored() && store.Abs() == Apply(old(store.Abs()), op)
    ensures OwnObjects(store)
  {
    match op {
      case IntakeOp(entry) =>
        var r := new StoredResponse(entry);
        store.AddE2EEResponse(r);
      case RewrapOp(responseId, env) => var _ := store.AppendE2EEEncDEK(responseId, env);
      case DeleteSealedOp(responseId) => var _ := store.DeleteE2EEResponse(responseId);
    }
  }

  method PerformOne(store: Store, op: Op)
    requires store.Valid() && store.SealedMirrored() && Enabled(store.Abs(), op)
    modifies store, store.ItemObjects(), store.e2ee
    ensures store.Valid() && store.SealedMirrored() && store.Abs() == Apply(old(store.Abs()), op)
    ensures OwnObjects(store)
  {
    if op.IntakeOp? || op.RewrapOp? || op.DeleteSealedOp? {
      PerformOnSealed(store, op);
    } else if op.SubmitOp? || op.DeleteParticipantOp? || op.PurgeOp? || op.CleanupOp? {
      PerformOnAnswers(store, op);
    } else {
      PerformOnItems(store, op);
    }
  }

  // From the empty store on, every run of operations keeps the per-scale index the one sorted, duplicate-free list of
  // the scale's own objects, and does to the store what it does to the abstract state.
  method Perform(ops: seq<Op>) returns (store: Store)
    requires IsRun(EMPTY, ops)
    ensures store.Valid() && store.SealedMirrored() && store.Abs() == Run(EMPTY, ops)
  {
    store := new Store();
    for i := 0 to |ops|
      invariant fresh(store) && fresh(store.ItemObjects()) && fresh(store.e2ee)
      invariant store.Valid() && store.SealedMirrored()
      invariant IsRun(store.Abs(), ops[i..]) && Run(store.Abs(), ops[i..]) == Run(EMPTY, ops)
    {
      assert ops[i..][0] == ops[i] && ops[i..][1..] == ops[i + 1..];
      PerformOne(store, ops[i]);
      assert forall j :: 0 <= j < |store.e2ee| ==> store.e2ee[j] in store.e2ee;
    }
  }
}
