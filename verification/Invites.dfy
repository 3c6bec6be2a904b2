// Registration by invitation: handleRegister of internal/api/router.go over internal/services/auth_service.go,
// internal/services/team_service.go and the users and invites of internal/api/store.go.
module Invites {
  import opened Wrappers
  import opened Text

  datatype User = User(id: string, email: string, tenantId: string)

  datatype Invite = Invite(scaleId: string, tenantId: string, email: string, role: string, expiresAt: int, accepted: bool)

  // One user who came in with an invite.
  datatype Admission = Admission(token: string, email: string, userId: string)

  datatype State = State(
    users: map<string, User>,
    invites: map<string, Invite>,
    collaborators: map<string, map<string, string>>,
    admissions: seq<Admission>)

  const EMPTY := State(map[], map[], map[], [])

  // What a request carries, and what the code asks of the world: new ids, whether hashing and signing succeed,
  // whether address and password are well formed, and which tenant owns the invite's scale by now.
  datatype Request = Request(
    email: string, password: string, inviteToken: string, userId: string, tenantId: string,
    hashed: bool, signed: bool, wellFormed: bool, scaleTenant: Option<string>)

  // The key usersByEmail holds a user under.
  function KeyOf(email: string): string {
    Lower(email)
  }

  predicate SameAddress(a: string, b: string) {
    Fold(Trim(a)) == Fold(Trim(b))
  }

  function AddUser(st: State, user: User): State {
    st.(users := st.users[KeyOf(user.email) := user])
  }

  predicate CanRegister(st: State, email: string, req: Request) {
    Trim(email) != "" && Trim(req.password) != "" && KeyOf(Trim(email)) !in st.users && req.hashed
  }

  predicate InviteAdmits(st: State, req: Request, now: int) {
    var token := Trim(req.inviteToken);
    && token in st.invites && st.invites[token].expiresAt >= now
    && SameAddress(req.email, st.invites[token].email)
    && Trim(st.invites[token].tenantId) != ""
    && CanRegister(st, req.email, req)
  }

  function Role(role: string): string {
    if Lower(Trim(role)) == "viewer" then "viewer" else "editor"
  }

  function CollaboratorsOf(st: State, scaleId: string): map<string, string> {
    if scaleId in st.collaborators then st.collaborators[scaleId] else map[]
  }

  // The collaborator is looked up by the address in the invite as it stands, blanks and all.
  predicate CanJoin(st: State, inv: Invite, req: Request) {
    var key := KeyOf(inv.email);
    req.scaleTenant == Some(inv.tenantId) && key in st.users && st.users[key].tenantId == inv.tenantId
  }

  function AddCollaborator(st: State, inv: Invite, req: Request): State {
    var key := KeyOf(inv.email);
    if CanJoin(st, inv, req)
    then st.(collaborators := st.collaborators[inv.scaleId := CollaboratorsOf(st, inv.scaleId)[st.users[key].id := Role(inv.role)]])
    else st
  }

  function MarkAccepted(st: State, token: string): State
    requires token in st.invites
  {
    st.(invites := st.invites[token := st.invites[token].(accepted := true)])
  }

  // With an invite. When signing fails the user stays, though neither the invite nor the scale learns of it.
  function Admit(st: State, req: Request, now: int): State
    requires InviteAdmits(st, req, now)
  {
    var token := Trim(req.inviteToken);
    var inv := st.invites[token];
    var grown := AddUser(st, User(req.userId, Trim(req.email), inv.tenantId));
    var logged := grown.(admissions := st.admissions + [Admission(token, Trim(req.email), req.userId)]);
    if req.signed then AddCollaborator(MarkAccepted(logged, token), inv, req) else logged
  }

  predicate Succeeds(st: State, req: Request, now: int) {
    && req.signed
    && if Trim(req.inviteToken) != "" then InviteAdmits(st, req, now) else CanRegister(st, req.email, req) && req.wellFormed
  }

  function Register(st: State, req: Request, now: int): State {
    if Trim(req.inviteToken) != "" then
      if InviteAdmits(st, req, now) then Admit(st, req, now) else st
    else if CanRegister(st, req.email, req) && req.wellFormed then AddUser(st, User(req.userId, Trim(req.email), req.tenantId))
    else st
  }

  // ----- what a registration takes and does, said of the request and the store -----

  // Somebody may be stored under this address.
  predicate Vacant(st: State, req: Request) {
    Trim(req.email) != "" && Trim(req.password) != "" && Lower(Trim(req.email)) !in st.users && req.hashed
  }

  // With an invite, exactly one thing can happen to the users: the invited address, up to case and surrounding blanks, gets
  // a user of the invite's tenant. It takes an invite of that token, from its creation to the very instant it expires at.
  lemma InvitedRegistration(st: State, req: Request, now: int)
    requires Trim(req.inviteToken) != ""
    ensures
      var token, after := Trim(req.inviteToken), Register(st, req, now);
      if token in st.invites && now <= st.invites[token].expiresAt && Fold(Trim(req.email)) == Fold(Trim(st.invites[token].email))
         && Trim(st.invites[token].tenantId) != "" && Vacant(st, req)
      then after.users == st.users[Lower(Trim(req.email)) := User(req.userId, Trim(req.email), st.invites[token].tenantId)]
           && after.admissions == st.admissions + [Admission(token, Trim(req.email), req.userId)]
           && (Succeeds(st, req, now) <==> req.signed)
      else after == st && !Succeeds(st, req, now)
  {
  }

  // Without one, the user gets a tenant of their own; invites and collaborators are not touched.
  lemma OwnRegistration(st: State, req: Request, now: int)
    requires Trim(req.inviteToken) == ""
    ensures
      var after := Register(st, req, now);
      if Vacant(st, req) && req.wellFormed
      then after == st.(users := st.users[Lower(Trim(req.email)) := User(req.userId, Trim(req.email), req.tenantId)])
           && (Succeeds(st, req, now) <==> req.signed)
      else after == st && !Succeeds(st, req, now)
  {
  }

  // An invite is marked as accepted by the registration that succeeds with it, and nothing else of any invite changes.
  lemma AcceptedOnSuccess(st: State, req: Request, now: int, token: string)
    requires token in st.invites
    ensures
      var after := Register(st, req, now);
      && after.invites.Keys == st.invites.Keys
      && after.invites[token] == st.invites[token].(accepted := after.invites[token].accepted)
      && (after.invites[token].accepted <==>
           st.invites[token].accepted || (token != "" && token == Trim(req.inviteToken) && Succeeds(st, req, now)))
  {
    if Trim(req.inviteToken) != "" && InviteAdmits(st, req, now) {
      AdmissionMarks(st, req, now);
    }
  }

  lemma AdmissionMarks(st: State, req: Request, now: int)
    requires InviteAdmits(st, req, now)
    ensures var token := Trim(req.inviteToken);
            Admit(st, req, now).invites == if req.signed then st.invites[token := st.invites[token].(accepted := true)] else st.invites
  {
  }

  // A collaborator is added to the invite's scale, under the id of the user that holds the invite's address as it stands,
  // as a viewer if the invite says so, up to case and blanks, and as an editor otherwise.
  lemma CollaboratorEffect(st: State, inv: Invite, req: Request)
    ensures
      var key, after := Lower(inv.email), AddCollaborator(st, inv, req);
      if req.scaleTenant == Some(inv.tenantId) && key in st.users && st.users[key].tenantId == inv.tenantId
      then
        && after == st.(collaborators := after.collaborators)
        && (forall s :: s != inv.scaleId ==> CollaboratorsOf(after, s) == CollaboratorsOf(st, s))
        && CollaboratorsOf(after, inv.scaleId)
           == CollaboratorsOf(st, inv.scaleId)[st.users[key].id := if Lower(Trim(inv.role)) == "viewer" then "viewer" else "editor"]
      else after == st
  {
  }

  // ----- the store and the handler -----

  class AccountStore {
    var users: map<string, User>
    var invites: map<string, Invite>
    var collaborators: map<string, map<string, string>>
    ghost var admissions: seq<Admission>

    constructor ()
      ensures Abs() == EMPTY
    {
      users, invites, collaborators, admissions := map[], map[], map[], [];
    }

    ghost function Abs(): State
      reads this
    {
      State(users, invites, collaborators, admissions)
    }

    method FindUserByEmail(email: string) returns (u: Option<User>)
      ensures u == if KeyOf(email) in users then Some(users[KeyOf(email)]) else None
    {
      u := if KeyOf(email) in users then Some(users[KeyOf(email)]) else None;
    }

    method CreateInvite(token: string, inv: Invite) returns (ok: bool)
      modifies this`invites
      ensures ok <==> Trim(token) != ""
      ensures invites == if ok then old(invites)[token := inv] else old(invites)
    {
      ok := Trim(token) != "";
      if ok {
        invites := invites[token := inv];
      }
    }

    method MarkInviteAccepted(token: string) returns (ok: bool)
      modifies this`invites
      ensures ok <==> token in old(invites)
      ensures ok ==> Abs() == MarkAccepted(old(Abs()), token)
      ensures !ok ==> Abs() == old(Abs())
    {
      ok := token in invites;
      if ok {
        invites := invites[token := invites[token].(accepted := true)];
      }
    }

    // RegisterWithTenant; added says whether the user was stored, which an error in signing does not undo.
    method RegisterWithTenant(req: Request, tenantId: string) returns (r: Result<string, string>, added: bool)
      modifies this`users
      ensures added <==> Trim(tenantId) != "" && CanRegister(old(Abs()), req.email, req)
      ensures r.Ok? <==> added && req.signed
      ensures Abs() == if added then AddUser(old(Abs()), User(req.userId, Trim(req.email), tenantId)) else old(Abs())
      ensures r.Ok? ==> r.value == req.userId
      ensures r.Err? ==>
        r.error == if Trim(req.email) == "" || Trim(req.password) == "" then "email/password required"
                   else if Trim(tenantId) == "" then "tenant required"
                   else if Lower(Trim(req.email)) in old(users) then "email exists"
                   else if !req.hashed then "hash"
                   else "token signer not configured"
    {
      var email := Trim(req.email);
      if email == "" || Trim(req.password) == "" {
        return Err("email/password required"), false;
      }
      if Trim(tenantId) == "" {
        return Err("tenant required"), false;
      }
      var existing := FindUserByEmail(email);
      if existing.Some? {
        return Err("email exists"), false;
      }
      if !req.hashed {
        return Err("hash"), false;
      }
      users := users[KeyOf(email) := User(req.userId, email, tenantId)];
      if !req.signed {
        return Err("token signer not configured"), true;
      }
      return Ok(req.userId), true;
    }

    method AddTeamMember(inv: Invite, req: Request) returns (ok: bool)
      modifies this`collaborators
      ensures Abs() == AddCollaborator(old(Abs()), inv, req)
      ensures ok <==> CanJoin(old(Abs()), inv, req)
    {
      if req.scaleTenant != Some(inv.tenantId) {
        return false;
      }
      var u := FindUserByEmail(inv.email);
      if u.None? || u.value.tenantId != inv.tenantId {
        return false;
      }
      var members := if inv.scaleId in collaborators then collaborators[inv.scaleId] else map[];
      collaborators := collaborators[inv.scaleId := members[u.value.id := Role(inv.role)]];
      return true;
    }

    method HandleRegister(req: Request, now: int) returns (r: Result<string, string>)
      modifies this
      ensures Abs() == Register(old(Abs()), req, now)
      ensures r.Ok? <==> Succeeds(old(Abs()), req, now)
      ensures r.Ok? ==> r.value == req.userId
      ensures Trim(req.inviteToken) != "" ==>
        (r == Err("invalid or expired invite")
         <==> Trim(req.inviteToken) !in old(invites) || old(invites)[Trim(req.inviteToken)].expiresAt < now)
      ensures Trim(req.inviteToken) in old(invites) && Trim(req.inviteToken) != "" && now <= old(invites)[Trim(req.inviteToken)].expiresAt ==>
        (r == Err("invite email mismatch") <==> !SameAddress(req.email, old(invites)[Trim(req.inviteToken)].email))
    {
      var token := Trim(req.inviteToken);
      if token != "" {
        if token !in invites || invites[token].expiresAt < now {
          return Err("invalid or expired invite");
        }
        var inv := invites[token];
        if !SameAddress(req.email, inv.email) {
          return Err("invite email mismatch");
        }
        var added;
        r, added := RegisterWithTenant(req, inv.tenantId);
        if added {
          admissions := admissions + [Admission(token, Trim(req.email), req.userId)];
        }
        if r.Err? {
          return;
        }
        var _ := MarkInviteAccepted(token);
        var _ := AddTeamMember(inv, req);
        return;
      }
      r := RegisterOwner(req);
    }

    method RegisterOwner(req: Request) returns (r: Result<string, string>)
      modifies this`users
      ensures Abs() == if CanRegister(old(Abs()), req.email, req) && req.wellFormed
                       then AddUser(old(Abs()), User(req.userId, Trim(req.email), req.tenantId)) else old(Abs())
      ensures r.Ok? <==> CanRegister(old(Abs()), req.email, req) && req.wellFormed && req.signed
      ensures r.Ok? ==> r.value == req.userId
      ensures r.Err? ==>
        r.error == if Trim(req.email) == "" || Trim(req.password) == "" then "email/password required"
                   else if !req.wellFormed then "invalid email or password"
                   else if Lower(Trim(req.email)) in old(users) then "email exists"
                   else if !req.hashed then "hash"
                   else "token signer not configured"
    {
      var email := Trim(req.email);
      if email == "" || Trim(req.password) == "" {
        return Err("email/password required");
      }
      if !req.wellFormed {
        return Err("invalid email or password");
      }
      var existing := FindUserByEmail(email);
      if existing.Some? {
        return Err("email exists");
      }
      if !req.hashed {
        return Err("hash");
      }
      users := users[KeyOf(email) := User(req.userId, email, req.tenantId)];
      return if req.signed then Ok(req.userId) else Err("token signer not configured");
    }
  }

  // ----- runs -----

  datatype Op = CreateInviteOp(token: string, inv: Invite) | RegisterOp(req: Request, now: int)

  // Tokens are fresh and addresses ASCII.
  predicate Enabled(st: State, op: Op) {
    match op
    case CreateInviteOp(token, inv) => token !in st.invites && Ascii(inv.email)
    case RegisterOp(req, _) => Ascii(req.email)
  }

  function Apply(st: State, op: Op): State {
    match op
    case CreateInviteOp(token, inv) => if Trim(token) == "" then st else st.(invites := st.invites[token := inv])
    case RegisterOp(req, now) => Register(st, req, now)
  }

  predicate IsRun(st: State, ops: seq<Op>)
    decreases ops
  {
    ops == [] || (Enabled(st, ops[0]) && IsRun(Apply(st, ops[0]), ops[1..]))
  }

  function Run(st: State, ops: seq<Op>): State
    decreases ops
  {
    if ops == [] then st else Run(Apply(st, ops[0]), ops[1..])
  }

  // Whoever was admitted is still a user under an address of their own, the one their invite names.
  predicate Kept(st: State, a: Admission) {
    && KeyOf(a.email) in st.users && st.users[KeyOf(a.email)] == User(a.userId, a.email, st.users[KeyOf(a.email)].tenantId)
    && a.token in st.invites && KeyOf(a.email) == KeyOf(Trim(st.invites[a.token].email))
  }

  ghost predicate Inv(st: State) {
    && (forall i :: 0 <= i < |st.admissions| ==> Kept(st, st.admissions[i]))
    && (forall i, j :: 0 <= i < j < |st.admissions| ==> KeyOf(st.admissions[i].email) != KeyOf(st.admissions[j].email))
    && (forall token :: token in st.invites ==> Ascii(st.invites[token].email))
    && (forall key :: key in st.users ==> Trimmed(key))
    && (forall s, id :: s in st.collaborators && id in st.collaborators[s] ==> IsUser(st.users, id))
  }

  ghost predicate IsUser(users: map<string, User>, id: string) {
    exists key :: key in users && users[key].id == id
  }

  lemma TrimAscii(s: string)
    requires Ascii(s)
    ensures Ascii(Trim(s))
  {
    var t := Trim(s);
    forall i | 0 <= i < |t| ensures t[i] < '\U{80}' {
      TrimWithin(s, t[i]);
    }
  }

  // On ASCII addresses folding and lower-casing agree.
  lemma SameKey(a: string, b: string)
    requires Ascii(a) && Ascii(b)
    ensures SameAddress(a, b) <==> KeyOf(Trim(a)) == KeyOf(Trim(b))
  {
    TrimAscii(a);
    TrimAscii(b);
    FoldIsLower(Trim(a));
    FoldIsLower(Trim(b));
  }

  lemma FoldIsLower(s: string)
    requires Ascii(s)
    ensures Fold(s) == Lower(s)
  {
  }

  // Users stay as they are, and so do the addresses of invites.
  ghost predicate Grows(st: State, next: State) {
    && (forall key :: key in st.users ==> key in next.users && next.users[key] == st.users[key])
    && (forall token :: token in st.invites ==> token in next.invites && next.invites[token].email == st.invites[token].email)
  }

  lemma GrowthKeeps(st: State, next: State)
    requires Inv(st) && Grows(st, next) && next.admissions == st.admissions
    requires forall token :: token in next.invites ==> Ascii(next.invites[token].email)
    requires forall key :: key in next.users ==> Trimmed(key)
    requires forall s, id :: s in next.collaborators && id in next.collaborators[s] ==>
      (s in st.collaborators && id in st.collaborators[s]) || IsUser(next.users, id)
    ensures Inv(next)
  {
    forall id | IsUser(st.users, id) ensures IsUser(next.users, id) {
      var key :| key in st.users && st.users[key].id == id;
      assert key in next.users && next.users[key].id == id;
    }
    forall i | 0 <= i < |next.admissions| ensures Kept(next, next.admissions[i]) {
      assert Kept(st, st.admissions[i]);
    }
  }

  lemma AdmissionKeeps(st: State, req: Request, now: int)
    requires Inv(st) && InviteAdmits(st, req, now) && Ascii(req.email)
    ensures Inv(Admit(st, req, now))
  {
    var token := Trim(req.inviteToken);
    var inv, email := st.invites[token], Trim(req.email);
    var grown := AddUser(st, User(req.userId, email, inv.tenantId));
    KeyTrimmed(req.email);
    GrowthKeeps(st, grown);
    var newcomer := Admission(token, email, req.userId);
    var logged := grown.(admissions := st.admissions + [newcomer]);
    SameKey(req.email, inv.email);
    assert Kept(logged, newcomer);
    LoggedKeeps(st, grown, newcomer);
    var marked := MarkAccepted(logged, token);
    GrowthKeeps(logged, marked);
    CollaboratorKeeps(marked, inv, req);
  }

  lemma KeyTrimmed(email: string)
    ensures Trimmed(KeyOf(Trim(email)))
  {
    TrimIsTrimmed(email);
    LowerTrims(Trim(email));
  }

  lemma CollaboratorKeeps(st: State, inv: Invite, req: Request)
    requires Inv(st)
    ensures Inv(AddCollaborator(st, inv, req))
  {
    var key, next := KeyOf(inv.email), AddCollaborator(st, inv, req);
    if CanJoin(st, inv, req) {
      assert key in next.users && next.users[key].id == st.users[key].id;
      assert IsUser(next.users, st.users[key].id);
    }
    GrowthKeeps(st, next);
  }

  lemma LoggedKeeps(st: State, grown: State, newcomer: Admission)
    requires Inv(st) && Inv(grown) && grown.admissions == st.admissions
    requires KeyOf(newcomer.email) !in st.users && Kept(grown, newcomer)
    ensures Inv(grown.(admissions := grown.admissions + [newcomer]))
  {
    var logged := grown.(admissions := grown.admissions + [newcomer]);
    forall i | 0 <= i < |logged.admissions|
      ensures Kept(logged, logged.admissions[i])
      ensures i < |st.admissions| ==> KeyOf(logged.admissions[i].email) != KeyOf(newcomer.email)
    {
      if i < |st.admissions| {
        assert Kept(st, st.admissions[i]) && Kept(grown, grown.admissions[i]);
      }
    }
  }

  lemma StepKeepsInv(st: State, op: Op)
    requires Inv(st) && Enabled(st, op)
    ensures Inv(Apply(st, op))
  {
    match op
    case CreateInviteOp(_, _) =>
      GrowthKeeps(st, Apply(st, op));
    case RegisterOp(req, now) =>
      if Trim(req.inviteToken) != "" && InviteAdmits(st, req, now) {
        AdmissionKeeps(st, req, now);
      } else {
        KeyTrimmed(req.email);
        GrowthKeeps(st, Apply(st, op));
      }
  }

  lemma {:induction false} RunKeepsInv(st: State, ops: seq<Op>)
    requires Inv(st) && IsRun(st, ops)
    ensures Inv(Run(st, ops))
    decreases ops
  {
    if ops != [] {
      StepKeepsInv(st, ops[0]);
      RunKeepsInv(Apply(st, ops[0]), ops[1..]);
    }
  }

  // Over every run an invite admits at most one user, although the code never asks whether it was accepted before.
  lemma OneUserPerInvite(ops: seq<Op>, i: nat, j: nat)
    requires IsRun(EMPTY, ops)
    requires i < |Run(EMPTY, ops).admissions| && j < |Run(EMPTY, ops).admissions|
    requires Run(EMPTY, ops).admissions[i].token == Run(EMPTY, ops).admissions[j].token
    ensures i == j
  {
    RunKeepsInv(EMPTY, ops);
    var st := Run(EMPTY, ops);
    assert Kept(st, st.admissions[i]) && Kept(st, st.admissions[j]);
  }

  // After every run, a user let in becomes a collaborator exactly when signing succeeds, the scale still belongs to the
  // inviting tenant and the invite's address carries no blanks around it. The id drawn for the user is new.
  lemma CollaboratorAdded(ops: seq<Op>, req: Request, now: int)
    requires IsRun(EMPTY, ops) && InviteAdmits(Run(EMPTY, ops), req, now) && Ascii(req.email)
    requires !IsUser(Run(EMPTY, ops).users, req.userId)
    ensures var st := Run(EMPTY, ops);
            var inv := st.invites[Trim(req.inviteToken)];
            req.userId in CollaboratorsOf(Admit(st, req, now), inv.scaleId)
            <==> req.signed && req.scaleTenant == Some(inv.tenantId) && Trim(inv.email) == inv.email
  {
    var st := Run(EMPTY, ops);
    RunKeepsInv(EMPTY, ops);
    NewcomerJoins(st, req, now, st.invites[Trim(req.inviteToken)]);
  }

  lemma NewcomerJoins(st: State, req: Request, now: int, inv: Invite)
    requires Inv(st) && InviteAdmits(st, req, now) && Ascii(req.email) && !IsUser(st.users, req.userId)
    requires inv == st.invites[Trim(req.inviteToken)]
    ensures req.userId in CollaboratorsOf(Admit(st, req, now), inv.scaleId)
      <==> req.signed && req.scaleTenant == Some(inv.tenantId) && Trim(inv.email) == inv.email
  {
    SameKey(req.email, inv.email);
    TrimIsTrimmed(inv.email);
    LowerTrims(inv.email);
    KeyTrimmed(req.email);
    assert req.userId !in CollaboratorsOf(st, inv.scaleId);
    assert forall key :: key in st.users ==> st.users[key].id != req.userId;
  }

  lemma LowerTrims(s: string)
    ensures Trimmed(Lower(s)) <==> Trimmed(s)
  {
    if s != [] {
      assert IsSpace(LowerChar(s[0])) <==> IsSpace(s[0]);
      assert IsSpace(LowerChar(s[|s| - 1])) <==> IsSpace(s[|s| - 1]);
    }
  }
}
