// What the in-memory store of internal/api/store.go holds, without its indexes and shared objects,
// and what each operation does to it.
module Catalogue {
  import opened Survey
  import opened Listing
  import opened Reordering
  import opened Envelopes

  datatype Sealed = Sealed(scaleId: string, responseId: string, record: Record)

  datatype State = State(
    scales: set<string>,
    rows: map<string, Item>,
    participants: map<string, string>,  // id to email
    responses: seq<Response>,
    sealed: seq<Sealed>)

  const EMPTY := State({}, map[], map[], [], [])

  // ----- responses -----

  // The responses to none of the dropped items, in order.
  function KeepResponses(rs: seq<Response>, dropped: set<string>): (r: seq<Response>)
    ensures forall x :: x in r <==> x in rs && x.itemId !in dropped
  {
    if rs == [] then []
    else
      var n := |rs| - 1;
      assert rs == rs[..n] + [rs[n]];
      if rs[n].itemId in dropped then KeepResponses(rs[..n], dropped) else KeepResponses(rs[..n], dropped) + [rs[n]]
  }

  function ResponsesOf(rs: seq<Response>, wanted: set<string>): (r: seq<Response>)
    ensures forall x :: x in r <==> x in rs && x.itemId in wanted
  {
    if rs == [] then []
    else
      var n := |rs| - 1;
      assert rs == rs[..n] + [rs[n]];
      if rs[n].itemId in wanted then ResponsesOf(rs[..n], wanted) + [rs[n]] else ResponsesOf(rs[..n], wanted)
  }

  function KeepOtherParticipants(rs: seq<Response>, pid: string): (r: seq<Response>)
    ensures forall x :: x in r <==> x in rs && x.participantId != pid
  {
    if rs == [] then []
    else
      var n := |rs| - 1;
      assert rs == rs[..n] + [rs[n]];
      if rs[n].participantId == pid then KeepOtherParticipants(rs[..n], pid) else KeepOtherParticipants(rs[..n], pid) + [rs[n]]
  }

  function KeepSince(rs: seq<Response>, cutoff: int): (r: seq<Response>)
    ensures forall x :: x in r <==> x in rs && x.submittedAt >= cutoff
    ensures |r| <= |rs|
  {
    if rs == [] then []
    else
      var n := |rs| - 1;
      assert rs == rs[..n] + [rs[n]];
      if rs[n].submittedAt < cutoff then KeepSince(rs[..n], cutoff) else KeepSince(rs[..n], cutoff) + [rs[n]]
  }

  lemma KeepStep(rs: seq<Response>, n: nat, dropped: set<string>)
    requires n < |rs|
    ensures KeepResponses(rs[..n + 1], dropped) == KeepResponses(rs[..n], dropped) + if rs[n].itemId in dropped then [] else [rs[n]]
    ensures ResponsesOf(rs[..n + 1], dropped) == ResponsesOf(rs[..n], dropped) + if rs[n].itemId in dropped then [rs[n]] else []
  {
    assert rs[..n + 1][..n] == rs[..n];
  }

  lemma ParticipantStep(rs: seq<Response>, n: nat, pid: string)
    requires n < |rs|
    ensures KeepOtherParticipants(rs[..n + 1], pid) == KeepOtherParticipants(rs[..n], pid) + if rs[n].participantId == pid then [] else [rs[n]]
  {
    assert rs[..n + 1][..n] == rs[..n];
  }

  lemma SinceStep(rs: seq<Response>, n: nat, cutoff: int)
    requires n < |rs|
    ensures KeepSince(rs[..n + 1], cutoff) == KeepSince(rs[..n], cutoff) + if rs[n].submittedAt < cutoff then [] else [rs[n]]
  {
    assert rs[..n + 1][..n] == rs[..n];
  }

  // Dropping the answers to some items removes exactly those, and no list about other items notices.
  lemma DroppingIsLocal(rs: seq<Response>, dropped: set<string>, wanted: set<string>)
    ensures |KeepResponses(rs, dropped)| + |ResponsesOf(rs, dropped)| == |rs|
    ensures wanted !! dropped ==> ResponsesOf(KeepResponses(rs, dropped), wanted) == ResponsesOf(rs, wanted)
    ensures wanted <= dropped ==> ResponsesOf(KeepResponses(rs, dropped), wanted) == []
  {
    DroppedCount(rs, dropped);
    OthersOfKept(rs, dropped, wanted);
  }

  lemma {:induction false} DroppedCount(rs: seq<Response>, dropped: set<string>)
    ensures |KeepResponses(rs, dropped)| + |ResponsesOf(rs, dropped)| == |rs|
  {
    if rs != [] {
      DroppedCount(rs[..|rs| - 1], dropped);
    }
  }

  lemma {:induction false} OthersOfKept(rs: seq<Response>, dropped: set<string>, wanted: set<string>)
    ensures wanted !! dropped ==> ResponsesOf(KeepResponses(rs, dropped), wanted) == ResponsesOf(rs, wanted)
    ensures wanted <= dropped ==> ResponsesOf(KeepResponses(rs, dropped), wanted) == []
  {
    if rs != [] {
      var n := |rs| - 1;
      OthersOfKept(rs[..n], dropped, wanted);
      ResponsesOfAppend(KeepResponses(rs[..n], dropped), rs[n], wanted);
    }
  }

  lemma ResponsesOfAppend(rs: seq<Response>, r: Response, wanted: set<string>)
    ensures ResponsesOf(rs + [r], wanted) == ResponsesOf(rs, wanted) + if r.itemId in wanted then [r] else []
  {
    assert (rs + [r])[..|rs|] == rs;
  }

  // ----- encrypted responses -----

  function KeepOtherScales(sealed: seq<Sealed>, scaleId: string): (r: seq<Sealed>)
    ensures |r| <= |sealed|
  {
    if sealed == [] then []
    else
      var n := |sealed| - 1;
      if sealed[n].scaleId == scaleId then KeepOtherScales(sealed[..n], scaleId)
      else KeepOtherScales(sealed[..n], scaleId) + [sealed[n]]
  }

  function SealedOf(sealed: seq<Sealed>, scaleId: string): seq<Sealed> {
    if sealed == [] then []
    else
      var n := |sealed| - 1;
      if sealed[n].scaleId == scaleId then SealedOf(sealed[..n], scaleId) + [sealed[n]] else SealedOf(sealed[..n], scaleId)
  }

  lemma SealedStep(sealed: seq<Sealed>, n: nat, scaleId: string)
    requires n < |sealed|
    ensures KeepOtherScales(sealed[..n + 1], scaleId) ==
      KeepOtherScales(sealed[..n], scaleId) + if sealed[n].scaleId == scaleId then [] else [sealed[n]]
    ensures SealedOf(sealed[..n + 1], scaleId) ==
      SealedOf(sealed[..n], scaleId) + if sealed[n].scaleId == scaleId then [sealed[n]] else []
  {
    assert sealed[..n + 1][..n] == sealed[..n];
  }

  lemma {:induction false} SealedDroppingIsLocal(sealed: seq<Sealed>, scaleId: string, other: string)
    ensures |KeepOtherScales(sealed, scaleId)| + |SealedOf(sealed, scaleId)| == |sealed|
    ensures other != scaleId ==> SealedOf(KeepOtherScales(sealed, scaleId), other) == SealedOf(sealed, other)
    ensures other == scaleId ==> SealedOf(KeepOtherScales(sealed, scaleId), other) == []
  {
    if sealed != [] {
      var n := |sealed| - 1;
      var kept := KeepOtherScales(sealed[..n], scaleId);
      SealedDroppingIsLocal(sealed[..n], scaleId, other);
      assert (kept + [sealed[n]])[..|kept|] == kept;
    }
  }

  // The length of sealed stands for "no such response".
  function FirstSealed(sealed: seq<Sealed>, responseId: string): (i: nat)
    ensures i <= |sealed|
    ensures i < |sealed| ==> sealed[i].responseId == responseId
    ensures forall j :: 0 <= j < i ==> sealed[j].responseId != responseId
  {
    if sealed == [] || sealed[0].responseId == responseId then 0 else 1 + FirstSealed(sealed[1..], responseId)
  }

  function AppendEnvelope(sealed: seq<Sealed>, responseId: string, env: Envelope): seq<Sealed> {
    var i := FirstSealed(sealed, responseId);
    if i == |sealed| then sealed
    else sealed[i := sealed[i].(record := sealed[i].record.(encDek := sealed[i].record.encDek + [env]))]
  }

  function RemoveSealed(sealed: seq<Sealed>, responseId: string): seq<Sealed> {
    var i := FirstSealed(sealed, responseId);
    if i == |sealed| then sealed else sealed[..i] + sealed[i + 1..]
  }

  // ----- items -----

  // An item without a position gets the number of items in its scale plus one.
  function Positioned(st: State, it: Item): Item {
    if it.order <= 0 then it.(order := |ItemsOf(st.rows, it.scaleId)| + 1) else it
  }

  function AddItem(st: State, it: Item): State {
    st.(rows := st.rows[it.id := Positioned(st, it)])
  }

  // Fields a caller leaves empty keep their old value, except the three flags, which are always copied.
  function MergeBody(was: Body, patch: Body): Body {
    Body(
      patch.reverseScored,
      if patch.stem.Some? then patch.stem else was.stem,
      if patch.itemType != "" then patch.itemType else was.itemType,
      if patch.options.Some? then patch.options else was.options,
      if patch.placeholder.Some? then patch.placeholder else was.placeholder,
      if patch.min != 0 then patch.min else was.min,
      if patch.max != 0 then patch.max else was.max,
      if patch.step != 0 then patch.step else was.step,
      patch.required,
      if patch.likertLabels.Some? then patch.likertLabels else was.likertLabels,
      if patch.itemType == "likert" || patch.likertShowNumbers || (!patch.likertShowNumbers && was.likertShowNumbers)
      then patch.likertShowNumbers else was.likertShowNumbers)
  }

  function MergeItem(was: Item, patch: Item): Item {
    was.(order := if patch.order > 0 then patch.order else was.order, body := MergeBody(was.body, patch.body))
  }

  function UpdateItem(st: State, patch: Item): State {
    if patch.id in st.rows then st.(rows := st.rows[patch.id := MergeItem(st.rows[patch.id], patch)]) else st
  }

  function DeleteItem(st: State, id: string): State {
    if id in st.rows then st.(rows := st.rows - {id}, responses := KeepResponses(st.responses, {id})) else st
  }

  function DeleteScale(st: State, scaleId: string): State {
    if scaleId in st.scales then
      var gone := ItemsOf(st.rows, scaleId);
      st.(scales := st.scales - {scaleId}, rows := st.rows - gone, responses := KeepResponses(st.responses, gone))
    else st
  }

  // The named items get the positions 1, 2, 3, ...
  function Renumbered(rows: map<string, Item>, ids: seq<string>): map<string, Item> {
    map id | id in rows :: if id in ids then rows[id].(order := FirstIndex(ids, id) + 1) else rows[id]
  }

  ghost function Reorder(st: State, scaleId: string, order: seq<string>): State {
    st.(rows := Renumbered(st.rows, Reordered(ListingOf(st.rows, scaleId), order)))
  }

  function DeleteResponsesByScale(st: State, scaleId: string): State {
    st.(responses := KeepResponses(st.responses, ItemsOf(st.rows, scaleId)), sealed := KeepOtherScales(st.sealed, scaleId))
  }

  function DeleteParticipant(st: State, pid: string, hard: bool): State {
    if pid in st.participants then
      st.(responses := KeepOtherParticipants(st.responses, pid),
          participants := if hard then st.participants - {pid} else st.participants[pid := ""])
    else st
  }

  // ----- runs -----

  datatype Op =
    | AddScaleOp(scaleId: string)
    | AddItemOp(item: Item)
    | UpdateItemOp(item: Item)
    | DeleteItemOp(itemId: string)
    | DeleteScaleOp(scaleId: string)
    | ReorderOp(scaleId: string, order: seq<string>)
    | SubmitOp(pid: string, email: string, answers: seq<Response>)
    | DeleteParticipantOp(pid: string, hard: bool)
    | PurgeOp(scaleId: string)
    | CleanupOp(cutoff: int)
    | IntakeOp(entry: Sealed)
    | RewrapOp(responseId: string, env: Envelope)
    | DeleteSealedOp(responseId: string)

  // Item ids are fresh; a submission answers stored items, as the one participant it registers.
  predicate Enabled(st: State, op: Op) {
    match op
    case AddItemOp(it) => it.id !in st.rows
    case SubmitOp(pid, _, answers) => forall a :: a in answers ==> a.participantId == pid && a.itemId in st.rows
    case _ => true
  }

  ghost function Apply(st: State, op: Op): State {
    match op
    case AddScaleOp(s) => st.(scales := st.scales + {s})
    case AddItemOp(it) => AddItem(st, it)
    case UpdateItemOp(it) => UpdateItem(st, it)
    case DeleteItemOp(id) => DeleteItem(st, id)
    case DeleteScaleOp(s) => DeleteScale(st, s)
    case ReorderOp(s, order) => Reorder(st, s, order)
    case SubmitOp(pid, email, answers) => st.(participants := st.participants[pid := email], responses := st.responses + answers)
    case DeleteParticipantOp(pid, hard) => DeleteParticipant(st, pid, hard)
    case PurgeOp(s) => DeleteResponsesByScale(st, s)
    case CleanupOp(cutoff) => st.(responses := KeepSince(st.responses, cutoff))
    case IntakeOp(entry) => st.(sealed := st.sealed + [entry])
    case RewrapOp(rid, env) => st.(sealed := AppendEnvelope(st.sealed, rid, env))
    case DeleteSealedOp(rid) => st.(sealed := RemoveSealed(st.sealed, rid))
  }

  ghost predicate IsRun(st: State, ops: seq<Op>)
    decreases ops
  {
    ops == [] || (Enabled(st, ops[0]) && IsRun(Apply(st, ops[0]), ops[1..]))
  }

  ghost function Run(st: State, ops: seq<Op>): State
    decreases ops
  {
    if ops == [] then st else Run(Apply(st, ops[0]), ops[1..])
  }

  // Every stored response refers to an existing item and an existing participant, and every item has a position.
  predicate Consistent(st: State) {
    && (forall r :: r in st.responses ==> r.itemId in st.rows && r.participantId in st.participants)
    && (forall id :: id in st.rows ==> st.rows[id].id == id && st.rows[id].order >= 1)
  }

  lemma StepKeepsConsistent(st: State, op: Op)
    requires Consistent(st) && Enabled(st, op)
    ensures Consistent(Apply(st, op))
  {
  }

  lemma {:induction false} RunKeepsConsistent(st: State, ops: seq<Op>)
    requires Consistent(st) && IsRun(st, ops)
    ensures Consistent(Run(st, ops))
    decreases ops
  {
    if ops != [] {
      StepKeepsConsistent(st, ops[0]);
      RunKeepsConsistent(Apply(st, ops[0]), ops[1..]);
    }
  }

  // From the empty store on, no run leaves a response without its item or its participant.
  lemma NoDanglingResponses(ops: seq<Op>)
    requires IsRun(EMPTY, ops)
    ensures forall r :: r in Run(EMPTY, ops).responses ==>
      r.itemId in Run(EMPTY, ops).rows && r.participantId in Run(EMPTY, ops).participants
  {
    RunKeepsConsistent(EMPTY, ops);
  }

  // ----- what the operations mean for the lists -----

  lemma RenumberedListing(rows: map<string, Item>, scaleId: string, ids: seq<string>)
    requires NoDuplicates(ids) && Exactly(rows, scaleId, ids)
    ensures IsListing(Renumbered(rows, ids), scaleId, ids)
    ensures forall i :: 0 <= i < |ids| ==> Renumbered(rows, ids)[ids[i]].order == i + 1
  {
    forall i | 0 <= i < |ids| ensures FirstIndex(ids, ids[i]) == i {
    }
  }

  // After a reorder the scale lists the named items first and the rest in their old order, at the positions 1..n
  // without gaps; every other scale lists what it listed.
  lemma ReorderLists(st: State, scaleId: string, order: seq<string>, other: string)
    ensures var after, was := Reorder(st, scaleId, order), ListingOf(st.rows, scaleId);
            var now := ListingOf(after.rows, scaleId);
            && now == Reordered(was, order)
            && multiset(now) == multiset(was)
            && (forall i :: 0 <= i < |now| ==> now[i] in after.rows && after.rows[now[i]].order == i + 1)
            && (other != scaleId ==> ListingOf(after.rows, other) == ListingOf(st.rows, other))
  {
    var was, after := ListingOf(st.rows, scaleId), Reorder(st, scaleId, order);
    ListingOfIsListing(st.rows, scaleId);
    ReorderedIsReordering(was, order);
    ReorderedIsPermutation(was, order);
    RenumberedListing(st.rows, scaleId, Reordered(was, order));
    IsListingOf(after.rows, scaleId, Reordered(was, order));
    if other != scaleId {
      ListingOfIsListing(st.rows, other);
      OtherScaleUntouched(st.rows, after.rows, other, ListingOf(st.rows, other));
    }
  }

  // A list only depends on the rows of its scale.
  lemma OtherScaleUntouched(rows: map<string, Item>, rows': map<string, Item>, scaleId: string, ids: seq<string>)
    requires IsListing(rows, scaleId, ids)
    requires forall id :: id in rows && rows[id].scaleId == scaleId ==> id in rows' && rows'[id] == rows[id]
    requires forall id :: id in rows' && rows'[id].scaleId == scaleId ==> id in rows && rows[id] == rows'[id]
    ensures IsListing(rows', scaleId, ids)
    ensures ListingOf(rows', scaleId) == ids
  {
    IsListingOf(rows', scaleId, ids);
  }

  // Deleting an item takes it out of its list and moves nothing.
  lemma DeleteItemLists(st: State, id: string, scaleId: string)
    requires id in st.rows
    ensures ListingOf(DeleteItem(st, id).rows, scaleId) == Rest(ListingOf(st.rows, scaleId), [id])
  {
    var was, rows := ListingOf(st.rows, scaleId), DeleteItem(st, id).rows;
    ListingOfIsListing(st.rows, scaleId);
    RestStaysSorted(st.rows, was, [id]);
    assert IsListing(rows, scaleId, Rest(was, [id]));
    IsListingOf(rows, scaleId, Rest(was, [id]));
  }

  // internal/api/store.go:469 promises that an item without a position is appended at the end. It is exactly when
  // every item of the scale sorts before the position the code picks.
  lemma DefaultPositionAppends(st: State, it: Item)
    requires it.id !in st.rows && it.order <= 0
    ensures ListingOf(AddItem(st, it).rows, it.scaleId) == ListingOf(st.rows, it.scaleId) + [it.id]
      <==> forall id :: id in ItemsOf(st.rows, it.scaleId) ==>
             KeyLess(st.rows[id].order, id, |ItemsOf(st.rows, it.scaleId)| + 1, it.id)
  {
    var was, after := ListingOf(st.rows, it.scaleId), AddItem(st, it).rows;
    ListingOfIsListing(st.rows, it.scaleId);
    ListingOfIsListing(after, it.scaleId);
    var appended := was + [it.id];
    if forall id :: id in ItemsOf(st.rows, it.scaleId) ==> KeyLess(st.rows[id].order, id, |ItemsOf(st.rows, it.scaleId)| + 1, it.id) {
      forall i, j | 0 <= i < j < |appended|
        ensures KeyLess(after[appended[i]].order, appended[i], after[appended[j]].order, appended[j]) && appended[i] != appended[j]
      {
        assert was[i] in was;
        if j < |was| {
          assert was[j] in was;
        }
      }
      assert Exactly(after, it.scaleId, appended);
      IsListingOf(after, it.scaleId, appended);
    }
    if ListingOf(after, it.scaleId) == appended {
      forall id | id in ItemsOf(st.rows, it.scaleId)
        ensures KeyLess(st.rows[id].order, id, |ItemsOf(st.rows, it.scaleId)| + 1, it.id)
      {
        var i :| 0 <= i < |was| && was[i] == id;
        assert appended[i] == id && appended[|was|] == it.id;
      }
    }
  }

  // With the positions a reorder leaves behind, that is always so.
  lemma AppendsAfterReorder(st: State, scaleId: string, order: seq<string>, it: Item)
    requires it.id !in st.rows && it.order <= 0 && it.scaleId == scaleId
    ensures var before := Reorder(st, scaleId, order);
            ListingOf(AddItem(before, it).rows, scaleId) == ListingOf(before.rows, scaleId) + [it.id]
  {
    var before := Reorder(st, scaleId, order);
    ReorderLists(st, scaleId, order, scaleId);
    ListingOfIsListing(before.rows, scaleId);
    ListingOfIsListing(st.rows, scaleId);
    var l := ListingOf(before.rows, scaleId);
    assert ItemsOf(before.rows, scaleId) == ItemsOf(st.rows, scaleId);
    forall id | id in ItemsOf(before.rows, scaleId)
      ensures KeyLess(before.rows[id].order, id, |ItemsOf(before.rows, scaleId)| + 1, it.id)
    {
      var i :| 0 <= i < |l| && l[i] == id;
      assert before.rows[l[i]].order == i + 1;
    }
    DefaultPositionAppends(before, it);
  }

  // It is not so after deleting an earlier item: the newcomer ties with the last item and its id decides.
  lemma DefaultPositionCanTie(body: Body)
    ensures var st := DeleteItem(AddItem(AddItem(EMPTY, Item("X", "S", 0, body)), Item("Y", "S", 0, body)), "X");
            ListingOf(AddItem(st, Item("A", "S", 0, body)).rows, "S") == ["A", "Y"]
  {
    var s1 := AddItem(EMPTY, Item("X", "S", 0, body));
    assert ItemsOf(EMPTY.rows, "S") == {};
    var s2 := AddItem(s1, Item("Y", "S", 0, body));
    assert ItemsOf(s1.rows, "S") == {"X"};
    var s3 := DeleteItem(s2, "X");
    assert s3.rows == map["Y" := Item("Y", "S", 2, body)];
    assert ItemsOf(s3.rows, "S") == {"Y"};
    var s4 := AddItem(s3, Item("A", "S", 0, body));
    assert s4.rows["A"].order == 2;
    IsListingOf(s4.rows, "S", ["A", "Y"]);
  }

  // Purging a scale's answers empties that scale, leaves every other scale's lists as they were, and removes exactly
  // as many entries as the two lists of the scale held.
  lemma PurgeIsLocal(st: State, scaleId: string, other: string)
    ensures var after := DeleteResponsesByScale(st, scaleId);
            && |after.responses| + |after.sealed| + |ResponsesOf(st.responses, ItemsOf(st.rows, scaleId))| + |SealedOf(st.sealed, scaleId)|
               == |st.responses| + |st.sealed|
            && ResponsesOf(after.responses, ItemsOf(after.rows, scaleId)) == []
            && SealedOf(after.sealed, scaleId) == []
            && (other != scaleId ==>
                 && ResponsesOf(after.responses, ItemsOf(after.rows, other)) == ResponsesOf(st.responses, ItemsOf(st.rows, other))
                 && SealedOf(after.sealed, other) == SealedOf(st.sealed, other))
  {
    DroppingIsLocal(st.responses, ItemsOf(st.rows, scaleId), ItemsOf(st.rows, other));
    DroppingIsLocal(st.responses, ItemsOf(st.rows, scaleId), ItemsOf(st.rows, scaleId));
    SealedDroppingIsLocal(st.sealed, scaleId, other);
    SealedDroppingIsLocal(st.sealed, scaleId, scaleId);
  }

  // Sending the same patch twice is sending it once, and the flag the code guards is copied in every case.
  lemma UpdateLaws(st: State, patch: Item)
    ensures UpdateItem(UpdateItem(st, patch), patch) == UpdateItem(st, patch)
    ensures patch.id in st.rows ==> UpdateItem(st, patch).rows[patch.id].body.likertShowNumbers == patch.body.likertShowNumbers
    ensures patch.id in st.rows ==> UpdateItem(st, patch).rows[patch.id].scaleId == st.rows[patch.id].scaleId
  {
  }
}
