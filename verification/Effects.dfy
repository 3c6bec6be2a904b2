// What each operation changes and what it leaves alone, said of the fields it reads and writes and not of how the new
// state is computed.
module Effects {
  import opened Survey
  import opened Listing
  import opened Reordering
  import opened Envelopes
  import opened Catalogue
  import opened Filtering

  // ----- the filters -----

  lemma {:induction false} KeptResponses(rs: seq<Response>, dropped: set<string>, keep: Response -> bool) returns (at: seq<int>)
    requires forall r :: r in rs ==> (keep(r) <==> r.itemId !in dropped)
    ensures Picks(rs, keep, KeepResponses(rs, dropped), at)
  {
    if rs == [] {
      at := [];
    } else {
      var before := KeptResponses(rs[..|rs| - 1], dropped, keep);
      at := PicksOneMore(rs, keep, KeepResponses(rs[..|rs| - 1], dropped), before);
    }
  }

  lemma {:induction false} WantedResponses(rs: seq<Response>, wanted: set<string>, keep: Response -> bool) returns (at: seq<int>)
    requires forall r :: keep(r) <==> r.itemId in wanted
    ensures Picks(rs, keep, ResponsesOf(rs, wanted), at)
  {
    if rs == [] {
      at := [];
    } else {
      var before := WantedResponses(rs[..|rs| - 1], wanted, keep);
      at := PicksOneMore(rs, keep, ResponsesOf(rs[..|rs| - 1], wanted), before);
    }
  }

  lemma {:induction false} OthersResponses(rs: seq<Response>, pid: string, keep: Response -> bool) returns (at: seq<int>)
    requires forall r :: keep(r) <==> r.participantId != pid
    ensures Picks(rs, keep, KeepOtherParticipants(rs, pid), at)
  {
    if rs == [] {
      at := [];
    } else {
      var before := OthersResponses(rs[..|rs| - 1], pid, keep);
      at := PicksOneMore(rs, keep, KeepOtherParticipants(rs[..|rs| - 1], pid), before);
    }
  }

  lemma {:induction false} RecentResponses(rs: seq<Response>, cutoff: int, keep: Response -> bool) returns (at: seq<int>)
    requires forall r :: keep(r) <==> r.submittedAt >= cutoff
    ensures Picks(rs, keep, KeepSince(rs, cutoff), at)
  {
    if rs == [] {
      at := [];
    } else {
      var before := RecentResponses(rs[..|rs| - 1], cutoff, keep);
      at := PicksOneMore(rs, keep, KeepSince(rs[..|rs| - 1], cutoff), before);
    }
  }

  lemma {:induction false} SealedOfOthers(sealed: seq<Sealed>, scaleId: string, keep: Sealed -> bool) returns (at: seq<int>)
    requires forall e :: keep(e) <==> e.scaleId != scaleId
    ensures Picks(sealed, keep, KeepOtherScales(sealed, scaleId), at)
  {
    if sealed == [] {
      at := [];
    } else {
      var before := SealedOfOthers(sealed[..|sealed| - 1], scaleId, keep);
      at := PicksOneMore(sealed, keep, KeepOtherScales(sealed[..|sealed| - 1], scaleId), before);
    }
  }

  lemma {:induction false} SealedOfScale(sealed: seq<Sealed>, scaleId: string, keep: Sealed -> bool) returns (at: seq<int>)
    requires forall e :: keep(e) <==> e.scaleId == scaleId
    ensures Picks(sealed, keep, SealedOf(sealed, scaleId), at)
  {
    if sealed == [] {
      at := [];
    } else {
      var before := SealedOfScale(sealed[..|sealed| - 1], scaleId, keep);
      at := PicksOneMore(sealed, keep, SealedOf(sealed[..|sealed| - 1], scaleId), before);
    }
  }

  // ----- items -----

  predicate Overrides<T(==)>(given: bool, was: T, patch: T, now: T) {
    (given ==> now == patch) && (!given ==> now == was)
  }

  // Whatever the patch gives is the item's afterwards, whatever it does not give is as it was; the flags are always given.
  predicate Updated(was: Item, patch: Item, now: Item) {
    && now.id == was.id && now.scaleId == was.scaleId
    && Overrides(patch.order > 0, was.order, patch.order, now.order)
    && Overrides(patch.body.stem.Some?, was.body.stem, patch.body.stem, now.body.stem)
    && Overrides(patch.body.itemType != "", was.body.itemType, patch.body.itemType, now.body.itemType)
    && Overrides(patch.body.options.Some?, was.body.options, patch.body.options, now.body.options)
    && Overrides(patch.body.placeholder.Some?, was.body.placeholder, patch.body.placeholder, now.body.placeholder)
    && Overrides(patch.body.min != 0, was.body.min, patch.body.min, now.body.min)
    && Overrides(patch.body.max != 0, was.body.max, patch.body.max, now.body.max)
    && Overrides(patch.body.step != 0, was.body.step, patch.body.step, now.body.step)
    && Overrides(patch.body.likertLabels.Some?, was.body.likertLabels, patch.body.likertLabels, now.body.likertLabels)
    && now.body.reverseScored == patch.body.reverseScored
    && now.body.required == patch.body.required
    && now.body.likertShowNumbers == patch.body.likertShowNumbers
  }

  // Nothing but the items may have changed.
  predicate OnlyItems(st: State, after: State) {
    after == st.(rows := after.rows)
  }

  ghost predicate OthersKept(rows: map<string, Item>, rows': map<string, Item>, id: string) {
    forall x :: x != id ==> (x in rows' <==> x in rows) && (x in rows ==> rows'[x] == rows[x])
  }

  lemma UpdateItemEffect(st: State, patch: Item)
    ensures
      var after := Apply(st, UpdateItemOp(patch));
      && OnlyItems(st, after) && OthersKept(st.rows, after.rows, patch.id)
      && (patch.id in after.rows <==> patch.id in st.rows)
      && (patch.id in st.rows ==> Updated(st.rows[patch.id], patch, after.rows[patch.id]))
  {
  }

  // An item without a position gets the number of items in its scale plus one; everything else of it is stored as given.
  lemma AddItemEffect(st: State, it: Item)
    ensures
      var after := Apply(st, AddItemOp(it));
      && OnlyItems(st, after) && OthersKept(st.rows, after.rows, it.id) && it.id in after.rows
      && after.rows[it.id].id == it.id && after.rows[it.id].scaleId == it.scaleId && after.rows[it.id].body == it.body
      && (it.order > 0 ==> after.rows[it.id].order == it.order)
      && (it.order <= 0 ==> after.rows[it.id].order == |ItemsOf(st.rows, it.scaleId)| + 1)
  {
  }

  // Reordering changes positions only, and only of the scale's items.
  lemma ReorderEffect(st: State, scaleId: string, order: seq<string>)
    ensures
      var after := Apply(st, ReorderOp(scaleId, order));
      && OnlyItems(st, after) && after.rows.Keys == st.rows.Keys
      && (forall id :: id in st.rows ==>
           && after.rows[id] == st.rows[id].(order := after.rows[id].order)
           && (st.rows[id].scaleId != scaleId ==> after.rows[id] == st.rows[id]))
  {
    ListingOfIsListing(st.rows, scaleId);
  }

  lemma DeleteItemEffect(st: State, id: string)
    requires id in st.rows
    ensures
      var after := Apply(st, DeleteItemOp(id));
      && after == st.(rows := after.rows, responses := after.responses)
      && OthersKept(st.rows, after.rows, id) && id !in after.rows
  {
  }

  lemma DeleteItemDropsAnswers(st: State, id: string, keep: Response -> bool) returns (at: seq<int>)
    requires id in st.rows && forall r :: r in st.responses ==> (keep(r) <==> r.itemId != id)
    ensures Picks(st.responses, keep, Apply(st, DeleteItemOp(id)).responses, at)
  {
    at := KeptResponses(st.responses, {id}, keep);
  }

  // Whether a response answers an item of the scale.
  predicate Answers(r: Response, rows: map<string, Item>, scaleId: string) {
    r.itemId in rows && rows[r.itemId].scaleId == scaleId
  }

  lemma ToOtherScales(st: State, scaleId: string, keep: Response -> bool) returns (at: seq<int>)
    requires forall r :: r in st.responses ==> (keep(r) <==> !Answers(r, st.rows, scaleId))
    ensures Picks(st.responses, keep, KeepResponses(st.responses, ItemsOf(st.rows, scaleId)), at)
  {
    var dropped := ItemsOf(st.rows, scaleId);
    forall r | r in st.responses ensures keep(r) <==> r.itemId !in dropped {
    }
    at := KeptResponses(st.responses, dropped, keep);
  }

  // Encrypted responses outlive their scale.
  lemma DeleteScaleEffect(st: State, scaleId: string)
    requires scaleId in st.scales
    ensures
      var after := Apply(st, DeleteScaleOp(scaleId));
      && after == st.(scales := after.scales, rows := after.rows, responses := after.responses)
      && (forall s :: s in after.scales <==> s in st.scales && s != scaleId)
      && (forall id :: id in after.rows <==> id in st.rows && st.rows[id].scaleId != scaleId)
      && (forall id :: id in after.rows ==> after.rows[id] == st.rows[id])
  {
  }

  lemma DeleteScaleDropsAnswers(st: State, scaleId: string, keep: Response -> bool) returns (at: seq<int>)
    requires scaleId in st.scales
    requires forall r :: r in st.responses ==> (keep(r) <==> !Answers(r, st.rows, scaleId))
    ensures Picks(st.responses, keep, Apply(st, DeleteScaleOp(scaleId)).responses, at)
  {
    at := ToOtherScales(st, scaleId, keep);
  }

  // A missing item, scale or participant leaves everything as it is.
  lemma MissingChangesNothing(st: State, id: string, hard: bool)
    ensures id !in st.rows ==> Apply(st, DeleteItemOp(id)) == st
    ensures id !in st.scales ==> Apply(st, DeleteScaleOp(id)) == st
    ensures id !in st.participants ==> Apply(st, DeleteParticipantOp(id, hard)) == st
  {
  }

  // ----- participants and responses -----

  // A hard deletion removes the participant, a soft one only blanks the address; the responses go either way.
  lemma DeleteParticipantEffect(st: State, pid: string, hard: bool)
    requires pid in st.participants
    ensures
      var after := Apply(st, DeleteParticipantOp(pid, hard));
      && after == st.(participants := after.participants, responses := after.responses)
      && (forall x :: x != pid ==> (x in after.participants <==> x in st.participants))
      && (forall x :: x != pid && x in st.participants ==> after.participants[x] == st.participants[x])
      && (hard ==> pid !in after.participants)
      && (!hard ==> pid in after.participants && after.participants[pid] == "")
  {
  }

  lemma DeleteParticipantDropsAnswers(st: State, pid: string, hard: bool, keep: Response -> bool) returns (at: seq<int>)
    requires pid in st.participants && forall r :: keep(r) <==> r.participantId != pid
    ensures Picks(st.responses, keep, Apply(st, DeleteParticipantOp(pid, hard)).responses, at)
  {
    at := OthersResponses(st.responses, pid, keep);
  }

  // Purging drops the answers to the scale's items and the scale's encrypted responses.
  lemma PurgeEffect(st: State, scaleId: string, keep: Response -> bool, keepSealed: Sealed -> bool)
    returns (at: seq<int>, sealedAt: seq<int>)
    requires forall r :: r in st.responses ==> (keep(r) <==> !Answers(r, st.rows, scaleId))
    requires forall e :: keepSealed(e) <==> e.scaleId != scaleId
    ensures
      var after := Apply(st, PurgeOp(scaleId));
      && after == st.(responses := after.responses, sealed := after.sealed)
      && Picks(st.responses, keep, after.responses, at) && Picks(st.sealed, keepSealed, after.sealed, sealedAt)
  {
    at := ToOtherScales(st, scaleId, keep);
    sealedAt := SealedOfOthers(st.sealed, scaleId, keepSealed);
  }

  // What is recorded comes behind what was: a submission with its participant, an encrypted response, a scale.
  lemma RecordingEffect(st: State, pid: string, email: string, answers: seq<Response>, entry: Sealed, scaleId: string)
    ensures
      var after := Apply(st, SubmitOp(pid, email, answers));
      && after == st.(participants := after.participants, responses := after.responses)
      && after.responses == st.responses + answers
      && after.participants.Keys == st.participants.Keys + {pid} && after.participants[pid] == email
      && (forall x :: x != pid && x in st.participants ==> after.participants[x] == st.participants[x])
    ensures Apply(st, IntakeOp(entry)).sealed == st.sealed + [entry]
    ensures Apply(st, IntakeOp(entry)) == st.(sealed := Apply(st, IntakeOp(entry)).sealed)
    ensures Apply(st, AddScaleOp(scaleId)) == st.(scales := st.scales + {scaleId})
  {
  }

  // Cleaning up drops what was submitted before the cutoff.
  lemma CleanupEffect(st: State, cutoff: int, keep: Response -> bool) returns (at: seq<int>)
    requires forall r :: keep(r) <==> r.submittedAt >= cutoff
    ensures
      var after := Apply(st, CleanupOp(cutoff));
      after == st.(responses := after.responses) && Picks(st.responses, keep, after.responses, at)
  {
    at := RecentResponses(st.responses, cutoff, keep);
  }

  // ----- encrypted responses -----

  // The first response of an id.
  predicate IsFirst(sealed: seq<Sealed>, responseId: string, i: nat) {
    i < |sealed| && sealed[i].responseId == responseId && forall j :: 0 <= j < i ==> sealed[j].responseId != responseId
  }

  // A rewrap puts its envelope after those of the first response of that id, and touches nothing else.
  lemma RewrapEffect(st: State, responseId: string, env: Envelope)
    ensures
      var after := Apply(st, RewrapOp(responseId, env));
      && after == st.(sealed := after.sealed) && |after.sealed| == |st.sealed|
      && (forall i: nat :: i < |st.sealed| && !IsFirst(st.sealed, responseId, i) ==> after.sealed[i] == st.sealed[i])
      && (forall i: nat :: IsFirst(st.sealed, responseId, i) ==>
           var was, now := st.sealed[i], after.sealed[i];
           && now.scaleId == was.scaleId && now.responseId == was.responseId
           && now.record.ciphertext == was.record.ciphertext && now.record.nonce == was.record.nonce
           && now.record.encDek == was.record.encDek + [env])
  {
  }

  // A deletion takes out the first response of that id; those before keep their places, those after move up by one.
  lemma DeleteSealedEffect(st: State, responseId: string, i: nat)
    requires IsFirst(st.sealed, responseId, i)
    ensures
      var after := Apply(st, DeleteSealedOp(responseId));
      && after == st.(sealed := after.sealed) && |after.sealed| == |st.sealed| - 1
      && forall j :: 0 <= j < |after.sealed| ==> after.sealed[j] == st.sealed[if j < i then j else j + 1]
  {
    assert FirstSealed(st.sealed, responseId) == i;
  }
}
