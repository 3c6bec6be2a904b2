// IntakeResponse, SubmitRewrap and the bundle of internal/services/e2ee_service.go over the store,
// and what no run of them can take away from a recipient.
module E2EEService {
  import opened Wrappers
  import opened Envelopes
  import opened Catalogue
  import opened Effects
  import opened MemoryStore
  import Text

  datatype ErrorCode = Invalid | Forbidden | NotFound | TurnstileFailed | NoToken

  datatype Intake = Intake(scaleId: string, responseId: string, ciphertext: Bytes, nonce: Bytes, encDek: seq<Envelope>)

  function EntryOf(input: Intake, generatedId: string): Sealed {
    Sealed(input.scaleId, if Blank(input.responseId) then generatedId else input.responseId,
           Record(input.ciphertext, input.nonce, input.encDek))
  }

  predicate Blank(s: string) {
    Text.Trim(s) == ""
  }

  // turnstileOk: the scale does not ask for the check, or a verifier exists and accepts the token. tokenOk: a token for
  // the respondent could be drawn.
  method IntakeResponse(store: Store, input: Intake, turnstileOk: bool, tokenOk: bool, generatedId: string)
    returns (r: Result<string, ErrorCode>)
    requires store.SealedMirrored()
    modifies store`e2ee, store`sealed
    ensures store.SealedMirrored()
    ensures r.Err? ==> store.sealed == old(store.sealed)
    ensures r.Ok? ==> store.sealed == old(store.sealed) + [EntryOf(input, generatedId)]
    // field by field
    ensures r.Ok? ==>
      var entry := store.sealed[|old(store.sealed)|];
      && entry.scaleId == input.scaleId
      && entry.responseId == r.value == (if Text.Trim(input.responseId) == "" then generatedId else input.responseId)
      && entry.record.ciphertext == input.ciphertext && entry.record.nonce == input.nonce && entry.record.encDek == input.encDek
    ensures r.Ok? <==> input.scaleId != "" && input.ciphertext != [] && input.nonce != [] && input.encDek != []
                       && input.scaleId in store.scales && turnstileOk && tokenOk
    ensures r.Err? ==>
      r.error == if input.scaleId == "" || input.ciphertext == [] || input.nonce == [] || input.encDek == [] then Invalid
                 else if input.scaleId !in store.scales then NotFound
                 else if !turnstileOk then TurnstileFailed
                 else NoToken
  {
    if input.scaleId == "" || input.ciphertext == [] || input.nonce == [] || input.encDek == [] {
      return Err(Invalid);
    }
    if input.scaleId !in store.scales {
      return Err(NotFound);
    }
    if !turnstileOk {
      return Err(TurnstileFailed);
    }
    if !tokenOk {
      return Err(NoToken);
    }
    var entry := EntryOf(input, generatedId);
    var stored := new StoredResponse(entry);
    store.AddE2EEResponse(stored);
    return Ok(entry.responseId);
  }

  datatype RewrapItem = RewrapItem(responseId: string, env: Envelope)

  // The envelopes appended by the items up to the first unknown response.
  function Rewrapped(sealed: seq<Sealed>, items: seq<RewrapItem>): seq<Sealed>
    decreases items
  {
    if items == [] || !Known(sealed, items[0].responseId) then sealed
    else Rewrapped(AppendEnvelope(sealed, items[0].responseId, items[0].env), items[1..])
  }

  predicate Known(sealed: seq<Sealed>, responseId: string) {
    FirstSealed(sealed, responseId) < |sealed|
  }

  method SubmitRewrap(store: Store, ownsScale: bool, items: seq<RewrapItem>) returns (r: Result<(), ErrorCode>)
    requires store.SealedMirrored()
    modifies store`sealed, store.e2ee`encDek
    ensures store.SealedMirrored()
    ensures store.sealed == if ownsScale then Rewrapped(old(store.sealed), items) else old(store.sealed)
    ensures r.Ok? <==> ownsScale && forall it :: it in items ==> Known(old(store.sealed), it.responseId)
    ensures r.Err? ==> r.error == if ownsScale then NotFound else Forbidden
  {
    if !ownsScale {
      return Err(Forbidden);
    }
    for i := 0 to |items|
      invariant store.SealedMirrored() && store.e2ee == old(store.e2ee)
      invariant Rewrapped(store.sealed, items[i..]) == Rewrapped(old(store.sealed), items)
      invariant SameKnown(old(store.sealed), store.sealed)
      invariant forall it :: it in items[..i] ==> Known(old(store.sealed), it.responseId)
    {
      var it := items[i];
      RewrapStep(old(store.sealed), store.sealed, items, i);
      var ok := store.AppendE2EEEncDEK(it.responseId, it.env);
      if !ok {
        return Err(NotFound);
      }
    }
    assert items[..|items|] == items;
    return Ok(());
  }

  ghost predicate SameKnown(sealed: seq<Sealed>, after: seq<Sealed>) {
    forall rid :: Known(after, rid) <==> Known(sealed, rid)
  }

  lemma RewrapStep(sealed0: seq<Sealed>, sealed: seq<Sealed>, items: seq<RewrapItem>, i: nat)
    requires i < |items| && SameKnown(sealed0, sealed)
    ensures var it, after := items[i], AppendEnvelope(sealed, items[i].responseId, items[i].env);
            && it in items
            && Rewrapped(sealed, items[i..]) == (if Known(sealed, it.responseId) then Rewrapped(after, items[i + 1..]) else sealed)
            && SameKnown(sealed0, after)
            && (forall x :: x in items[..i + 1] <==> x in items[..i] || x == it)
  {
    var it := items[i];
    var after := AppendEnvelope(sealed, it.responseId, it.env);
    assert items[i..][1..] == items[i + 1..] && items[i..][0] == it;
    assert items[..i + 1] == items[..i] + [it];
    forall rid ensures Known(after, rid) <==> Known(sealed0, rid) {
      AppendKeepsKnown(sealed, it.responseId, it.env, rid);
    }
  }

  lemma KnownMeans(sealed: seq<Sealed>, rid: string)
    ensures Known(sealed, rid) <==> exists i :: 0 <= i < |sealed| && sealed[i].responseId == rid
  {
  }

  lemma AppendKeepsKnown(sealed: seq<Sealed>, responseId: string, env: Envelope, rid: string)
    ensures Known(AppendEnvelope(sealed, responseId, env), rid) <==> Known(sealed, rid)
  {
    var after := AppendEnvelope(sealed, responseId, env);
    assert |after| == |sealed| && forall i :: 0 <= i < |sealed| ==> after[i].responseId == sealed[i].responseId;
    KnownMeans(after, rid);
    KnownMeans(sealed, rid);
  }

  // The envelopes a rewrap request brings one response id, up to the first id the store does not know.
  function EnvelopesFor(sealed: seq<Sealed>, items: seq<RewrapItem>, responseId: string): seq<Envelope>
    decreases items
  {
    if items == [] || (forall j :: 0 <= j < |sealed| ==> sealed[j].responseId != items[0].responseId) then []
    else (if items[0].responseId == responseId then [items[0].env] else []) + EnvelopesFor(sealed, items[1..], responseId)
  }

  ghost predicate SameIds(a: seq<Sealed>, b: seq<Sealed>) {
    |a| == |b| && forall j :: 0 <= j < |a| ==> a[j].responseId == b[j].responseId
  }

  lemma {:induction false} SameEnvelopes(a: seq<Sealed>, b: seq<Sealed>, items: seq<RewrapItem>, responseId: string)
    requires SameIds(a, b)
    ensures EnvelopesFor(a, items, responseId) == EnvelopesFor(b, items, responseId)
    decreases items
  {
    if items != [] {
      SameEnvelopes(a, b, items[1..], responseId);
      assert (forall j :: 0 <= j < |a| ==> a[j].responseId != items[0].responseId)
        <==> (forall j :: 0 <= j < |b| ==> b[j].responseId != items[0].responseId);
    }
  }

  // The response with more envelopes at the end.
  predicate Gets(was: Sealed, now: Sealed, more: seq<Envelope>) {
    && now.scaleId == was.scaleId && now.responseId == was.responseId
    && now.record.ciphertext == was.record.ciphertext && now.record.nonce == was.record.nonce
    && now.record.encDek == was.record.encDek + more
  }

  lemma GetsInTurn(a: Sealed, b: Sealed, c: Sealed, xs: seq<Envelope>, ys: seq<Envelope>)
    requires Gets(a, b, xs) && Gets(b, c, ys)
    ensures Gets(a, c, xs + ys)
  {
  }

  lemma OneEnvelope(sealed: seq<Sealed>, it: RewrapItem, i: nat)
    requires i < |sealed|
    ensures
      var next := AppendEnvelope(sealed, it.responseId, it.env);
      && SameIds(sealed, next)
      && Gets(sealed[i], next[i], if IsFirst(sealed, it.responseId, i) then [it.env] else [])
  {
  }

  // Seen from one response: it gets the envelopes of its id, in the order of the request and after its own, if it is the
  // first of that id, and stays as it is otherwise.
  lemma {:induction false} RewrappedEnvelopes(sealed: seq<Sealed>, items: seq<RewrapItem>, i: nat)
    requires i < |sealed|
    ensures |Rewrapped(sealed, items)| == |sealed|
    ensures Gets(sealed[i], Rewrapped(sealed, items)[i],
                 if IsFirst(sealed, sealed[i].responseId, i) then EnvelopesFor(sealed, items, sealed[i].responseId) else [])
    decreases items
  {
    if items == [] {
      return;
    }
    var it, rest := items[0], items[1..];
    KnownMeans(sealed, it.responseId);
    if Known(sealed, it.responseId) {
      var next, rid := AppendEnvelope(sealed, it.responseId, it.env), sealed[i].responseId;
      OneEnvelope(sealed, it, i);
      FirstAlike(sealed, next, rid, i);
      SameEnvelopes(sealed, next, rest, rid);
      RewrappedEnvelopes(next, rest, i);
      GetsInTurn(sealed[i], next[i], Rewrapped(next, rest)[i], if IsFirst(sealed, it.responseId, i) then [it.env] else [],
                 if IsFirst(sealed, rid, i) then EnvelopesFor(sealed, rest, rid) else []);
    }
  }

  lemma FirstAlike(a: seq<Sealed>, b: seq<Sealed>, rid: string, i: nat)
    requires SameIds(a, b)
    ensures IsFirst(a, rid, i) <==> IsFirst(b, rid, i)
  {
  }

  // ----- over whole runs -----

  // b is a later form of a: the same response with more envelopes after the old ones.
  predicate Grown(a: Sealed, b: Sealed) {
    && a.scaleId == b.scaleId && a.responseId == b.responseId
    && a.record.ciphertext == b.record.ciphertext && a.record.nonce == b.record.nonce
    && a.record.encDek <= b.record.encDek
  }

  // The two requests that can delete a response name it or its scale.
  predicate Deletes(op: Op, e: Sealed) {
    op == DeleteSealedOp(e.responseId) || op == PurgeOp(e.scaleId)
  }

  lemma StepKeeps(st: State, op: Op, e: Sealed)
    requires e in st.sealed && !Deletes(op, e)
    ensures exists e' :: e' in Apply(st, op).sealed && Grown(e, e')
  {
    var after := Apply(st, op).sealed;
    var i :| 0 <= i < |st.sealed| && st.sealed[i] == e;
    match op {
      case RewrapOp(rid, env) =>
        assert after[i] in after && Grown(e, after[i]);
      case DeleteSealedOp(rid) =>
        var k := FirstSealed(st.sealed, rid);
        var j := if k <= i && k < |st.sealed| then i - 1 else i;
        assert k != i;
        assert after[j] == e;
        assert after[j] in after && Grown(e, after[j]);
      case PurgeOp(s) =>
        KeptOtherScales(st.sealed, s, e);
        assert Grown(e, e);
      case IntakeOp(entry) =>
        assert after[i] == e;
        assert after[i] in after && Grown(e, after[i]);
      case _ =>
        assert e in after && Grown(e, e);
    }
  }

  lemma {:induction false} KeptOtherScales(sealed: seq<Sealed>, scaleId: string, e: Sealed)
    ensures e in KeepOtherScales(sealed, scaleId) <==> e in sealed && e.scaleId != scaleId
  {
    if sealed != [] {
      var n := |sealed| - 1;
      assert sealed == sealed[..n] + [sealed[n]];
      KeptOtherScales(sealed[..n], scaleId, e);
    }
  }

  lemma {:induction false} ListedInBundle(sealed: seq<Sealed>, scaleId: string, e: Sealed)
    ensures e in SealedOf(sealed, scaleId) <==> e in sealed && e.scaleId == scaleId
  {
    if sealed != [] {
      var n := |sealed| - 1;
      assert sealed == sealed[..n] + [sealed[n]];
      ListedInBundle(sealed[..n], scaleId, e);
    }
  }

  lemma {:induction false} RunKeeps(st: State, ops: seq<Op>, e: Sealed)
    requires IsRun(st, ops) && e in st.sealed
    requires forall op :: op in ops ==> !Deletes(op, e)
    ensures exists e' :: e' in Run(st, ops).sealed && Grown(e, e')
    decreases ops
  {
    if ops == [] {
      assert Grown(e, e);
    } else {
      StepKeeps(st, ops[0], e);
      var e1 :| e1 in Apply(st, ops[0]).sealed && Grown(e, e1);
      forall op | op in ops[1..] ensures !Deletes(op, e1) {
        assert op in ops;
      }
      RunKeeps(Apply(st, ops[0]), ops[1..], e1);
      var e2 :| e2 in Run(Apply(st, ops[0]), ops[1..]).sealed && Grown(e1, e2);
      assert Grown(e, e2);
    }
  }

  // Whoever reads a stored response keeps reading the same payload, in every bundle of its scale, through every run of
  // intakes, rewraps, item edits and deletions of other responses.
  lemma ReadersKeepReading(suite: Suite, st: State, ops: seq<Op>, e: Sealed, priv: Bytes)
    requires IsRun(st, ops) && e in st.sealed
    requires forall op :: op in ops ==> !Deletes(op, e)
    requires Reads(suite, priv, e.record).Some?
    ensures exists e' :: e' in SealedOf(Run(st, ops).sealed, e.scaleId) && e'.responseId == e.responseId
                         && Reads(suite, priv, e'.record) == Reads(suite, priv, e.record)
  {
    RunKeeps(st, ops, e);
    var e' :| e' in Run(st, ops).sealed && Grown(e, e');
    var more := e'.record.encDek[|e.record.encDek|..];
    assert e'.record == e.record.(encDek := e.record.encDek + more);
    GrowthKeepsReaders(suite, priv, e.record, more);
    ListedInBundle(Run(st, ops).sealed, e.scaleId, e');
  }

  // What a respondent submits: the output of EncryptForProject.
  predicate Encrypts(suite: Suite, payload: Bytes, keys: seq<KeyEntry>, r: Randomness, input: Intake) {
    && input.ciphertext == suite.encrypt(payload, r.nonce, r.dek) && input.nonce == r.nonce
    && input.encDek == Wrapped(suite, keys, r, |keys|)
  }

  // From encryption through intake to the end of any later run: every registered recipient decrypts the exact payload,
  // from the scale's bundle and under the id the respondent was told.
  lemma RegisteredRecipientsRead(suite: Suite, payload: Bytes, keys: seq<KeyEntry>, r: Randomness, priv: Bytes,
                                 st: State, input: Intake, generatedId: string, ops: seq<Op>)
    requires suite.Ideal() && X25519Key(Some(suite.publicKey(priv))) in keys
    requires Encrypts(suite, payload, keys, r, input)
    requires IsRun(Apply(st, IntakeOp(EntryOf(input, generatedId))), ops)
    requires forall op :: op in ops ==> !Deletes(op, EntryOf(input, generatedId))
    ensures exists e :: e in SealedOf(Run(Apply(st, IntakeOp(EntryOf(input, generatedId))), ops).sealed, input.scaleId)
                        && e.responseId == (if Text.Trim(input.responseId) == "" then generatedId else input.responseId)
                        && Reads(suite, priv, e.record) == Some(payload)
  {
    var entry := EntryOf(input, generatedId);
    EveryRecipientReads(suite, payload, keys, r, priv);
    assert entry in Apply(st, IntakeOp(entry)).sealed;
    ReadersKeepReading(suite, Apply(st, IntakeOp(entry)), ops, entry, priv);
  }

  // A whole submission: what the store holds afterwards is one more response, which exactly the payload can be read from,
  // by every registered recipient.
  method EncryptAndTakeIn(store: Store, suite: Suite, payload: Bytes, keys: seq<KeyEntry>, random: Randomness,
                          scaleId: string, responseId: string, turnstileOk: bool, tokenOk: bool, generatedId: string)
    returns (r: Result<string, ErrorCode>)
    requires store.SealedMirrored() && suite.Ideal()
    modifies store`e2ee, store`sealed
    ensures store.SealedMirrored()
    ensures r.Ok? ==> |store.sealed| == |old(store.sealed)| + 1 && store.sealed[..|old(store.sealed)|] == old(store.sealed)
    ensures r.Ok? ==> forall priv :: X25519Key(Some(suite.publicKey(priv))) in keys ==>
      Reads(suite, priv, store.sealed[|old(store.sealed)|].record) == Some(payload)
    ensures r.Ok? ==> forall priv :: Reads(suite, priv, store.sealed[|old(store.sealed)|].record) in {None, Some(payload)}
  {
    var rec := EncryptForProject(suite, payload, keys, random);
    var input := Intake(scaleId, responseId, rec.ciphertext, rec.nonce, rec.encDek);
    r := IntakeResponse(store, input, turnstileOk, tokenOk, generatedId);
    forall priv ensures X25519Key(Some(suite.publicKey(priv))) in keys ==> Reads(suite, priv, rec) == Some(payload)
      ensures Reads(suite, priv, rec) in {None, Some(payload)}
    {
      EveryRecipientReads(suite, payload, keys, random, priv);
    }
  }

  // Nothing is forged either: every stored response is a grown form of one that was stored before or taken in.
  lemma {:induction false} NothingForged(st: State, ops: seq<Op>, e': Sealed)
    requires IsRun(st, ops) && e' in Run(st, ops).sealed
    ensures exists e :: (e in st.sealed || IntakeOp(e) in ops) && Grown(e, e')
    decreases ops
  {
    if ops == [] {
      assert Grown(e', e');
    } else {
      NothingForged(Apply(st, ops[0]), ops[1..], e');
      var e1 :| (e1 in Apply(st, ops[0]).sealed || IntakeOp(e1) in ops[1..]) && Grown(e1, e');
      if IntakeOp(e1) in ops[1..] {
        assert IntakeOp(e1) in ops;
      } else {
        StepForgesNothing(st, ops[0], e1);
        var e :| (e in st.sealed || ops[0] == IntakeOp(e)) && Grown(e, e1);
        assert Grown(e, e');
      }
    }
  }

  lemma StepForgesNothing(st: State, op: Op, e1: Sealed)
    requires e1 in Apply(st, op).sealed
    ensures exists e :: (e in st.sealed || op == IntakeOp(e)) && Grown(e, e1)
  {
    match op {
      case RewrapOp(rid, env) =>
        var after := Apply(st, op).sealed;
        var i :| 0 <= i < |after| && after[i] == e1;
        assert st.sealed[i] in st.sealed && Grown(st.sealed[i], e1);
      case PurgeOp(s) =>
        KeptOtherScales(st.sealed, s, e1);
        assert Grown(e1, e1);
      case _ =>
        assert e1 in st.sealed || op == IntakeOp(e1);
        assert Grown(e1, e1);
    }
  }
}
