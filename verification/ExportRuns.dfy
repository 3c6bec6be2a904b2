// The job store at work: concurrent requests served one lock at a time, in any order, stay within the transition system.
module ExportRuns {
  import opened Wrappers
  import opened ExportJobs
  import opened ExportProtocol

  ghost predicate Mirrors(store: JobStore, c: Config)
    reads store
  {
    store.Valid() && store.ledger == c.ledger && store.lastExport == c.last && store.clock == c.clock
  }

  // ----- one step of a request, one lock -----

  method Search(store: JobStore, ghost c: Config, r: nat, q: Request, now: int) returns (found: bool, ghost a: Action)
    requires Mirrors(store, c) && InPhase(c, r, Searching) && q == c.requests[r] && now >= store.clock
    modifies store
    ensures Enabled(c, a) && Mirrors(store, Apply(c, a))
    ensures Apply(c, a).requests == c.requests[r := q.(phase := if found then Done else Asking)]
    ensures Apply(c, a).ledger == c.ledger && Apply(c, a).grants == c.grants && Apply(c, a).clock == now
  {
    var job := store.FindRecentExportJob(q.tenantId, q.scaleId, q.ip, REUSE_WINDOW, now);
    found := job.Some?;
    a := Find(r, now, if job.Some? then Some(job.value.id) else None);
  }

  method AskThrottle(store: JobStore, ghost c: Config, r: nat, q: Request, checked: int, granted: int)
    returns (allowed: bool, ghost a: Action)
    requires Mirrors(store, c) && InPhase(c, r, Asking) && q == c.requests[r] && store.clock <= checked <= granted
    modifies store
    ensures Enabled(c, a) && Mirrors(store, Apply(c, a))
    ensures Apply(c, a).requests == c.requests[r := q.(phase := if allowed then Granted(|c.grants|) else Done)]
    ensures |Apply(c, a).grants| == |c.grants| + if allowed then 1 else 0
    ensures Apply(c, a).ledger == c.ledger && Apply(c, a).clock == granted
  {
    allowed := store.AllowExport(q.tenantId, MIN_INTERVAL, checked, granted);
    a := Allow(r, checked, granted);
  }

  method Issue(store: JobStore, ghost c: Config, r: nat, q: Request, now: int, id: string, token: string) returns (ghost a: Action)
    requires Mirrors(store, c) && r in c.requests && q == c.requests[r] && q.phase.Granted?
    requires now >= store.clock && id !in store.ledger
    modifies store
    ensures Enabled(c, a) && Mirrors(store, Apply(c, a))
    ensures Apply(c, a).requests == c.requests[r := q.(phase := Done)] && Apply(c, a).grants == c.grants
    ensures Apply(c, a).ledger.Keys == c.ledger.Keys + {id} && Apply(c, a).clock == now
    ensures Apply(c, a).ledger[id].token == token && forall x :: x in c.ledger ==> Apply(c, a).ledger[x] == c.ledger[x]
  {
    var _ := store.CreateExportJob(q.tenantId, q.scaleId, q.ip, JOB_TTL, now, id, token);
    a := Create(r, now, id, token);
  }

  method Fetch(store: JobStore, ghost c: Config, id: string, token: string, now: int) returns (job: Option<Job>, ghost a: Action)
    requires Mirrors(store, c) && now >= store.clock
    modifies store
    ensures Enabled(c, a) && Mirrors(store, Apply(c, a)) && Apply(c, a) == c.(clock := now)
    ensures job == Answer(c.ledger, id, token, now)
    ensures job.Some? ==> id in c.ledger && job.value == c.ledger[id] && job.value.id == id && job.value.token == token
                          && now <= job.value.expiresAt
  {
    job := store.GetExportJob(id, token, now);
    a := Get(now);
  }

  // ----- any schedule -----

  // What the world does next: a request arrives, a request gets to its next lock, or a job is fetched. A step reads the
  // clock at now and later, and draws id and token in case it creates a job.
  datatype Move =
    | Come(r: nat, tenantId: string, scaleId: string, ip: string)
    | Step(r: nat, now: int, later: int, id: string, token: string)
    | Look(id: string, token: string, now: int)

  function StartOf(m: Move, clock: int): int {
    match m
    case Come(_, _, _, _) => clock
    case Step(_, now, _, _, _) => now
    case Look(_, _, now) => now
  }

  function EndOf(m: Move, clock: int): int {
    match m
    case Come(_, _, _, _) => clock
    case Step(_, _, later, _, _) => later
    case Look(_, _, now) => now
  }

  // The clock does not run backwards.
  predicate InTime(moves: seq<Move>, clock: int)
    decreases moves
  {
    moves == [] || (clock <= StartOf(moves[0], clock) <= EndOf(moves[0], clock) && InTime(moves[1..], EndOf(moves[0], clock)))
  }

  predicate NewIds(moves: seq<Move>) {
    forall i, j :: 0 <= i < j < |moves| && moves[i].Step? && moves[j].Step? ==> moves[i].id != moves[j].id
  }

  // No move from i on draws the id of a job there is.
  ghost predicate Undrawn(moves: seq<Move>, i: nat, ledger: map<string, Job>) {
    forall j :: i <= j < |moves| && moves[j].Step? ==> moves[j].id !in ledger
  }

  // The latest instant the first i moves have read.
  function LastRead(moves: seq<Move>, i: nat): int
    requires i <= |moves|
  {
    if i == 0 then 0 else EndOf(moves[i - 1], LastRead(moves, i - 1))
  }

  // Where every request stands, and how many grants there were.
  datatype Desk = Desk(requests: map<nat, Request>, grants: nat)

  ghost predicate InStep(store: JobStore, c: Config, desk: Desk)
    reads store
  {
    Mirrors(store, c) && Leads(INITIAL, c) && c.requests == desk.requests && |c.grants| == desk.grants
  }

  // Every job carries the token drawn by the move that created it.
  ghost predicate TokensDrawn(moves: seq<Move>, n: nat, ledger: map<string, Job>) {
    forall id :: id in ledger ==> Drawn(moves, n, id, ledger[id].token)
  }

  // One of the first n moves drew the two together.
  predicate Drawn(moves: seq<Move>, n: nat, id: string, token: string) {
    exists j :: 0 <= j < n && j < |moves| && moves[j].Step? && moves[j].id == id && moves[j].token == token
  }

  // The n-th move gets a job only if it asks for one, by an id and a token drawn together before.
  predicate Entitled(moves: seq<Move>, n: nat, answer: Option<Job>)
    requires n < |moves|
  {
    answer.Some? ==> moves[n].Look? && answer.value.id == moves[n].id && Drawn(moves, n, moves[n].id, moves[n].token)
  }

  // Whatever the schedule, what the store does is a run of the transition system, so every bound proved of runs holds of
  // the store. And a download is answered only to the token drawn before with the id it names.
  method Serve(moves: seq<Move>) returns (store: JobStore, answers: seq<Option<Job>>, ghost c: Config)
    requires InTime(moves, 0) && NewIds(moves)
    ensures Leads(INITIAL, c) && Mirrors(store, c)
    ensures |answers| == |moves|
    ensures forall i :: 0 <= i < |moves| ==> Entitled(moves, i, answers[i])
  {
    store := new JobStore();
    c := INITIAL;
    StayLeads(c);
    var desk := Desk(map[], 0);
    answers := [];
    for i := 0 to |moves|
      invariant fresh(store) && InStep(store, c, desk)
      invariant InTime(moves[i..], LastRead(moves, i)) && store.clock <= LastRead(moves, i)
      invariant Undrawn(moves, i, c.ledger) && TokensDrawn(moves, i, c.ledger)
      invariant |answers| == i
      invariant forall k :: 0 <= k < i ==> Entitled(moves, k, answers[k])
    {
      assert moves[i..][0] == moves[i] && moves[i..][1..] == moves[i + 1..];
      ghost var before := c;
      var answer;
      desk, answer, c := ServeMove(store, c, desk, moves[i], LastRead(moves, i));
      StillDrawn(moves, i, before.ledger, c.ledger);
      answers := answers + [answer];
    }
  }

  // What a move may add to the ledger: the job it draws an id and a token for.
  ghost predicate AddsAtMost(m: Move, before: map<string, Job>, after: map<string, Job>) {
    forall id :: id in after ==>
      (id in before && after[id] == before[id]) || (m.Step? && id == m.id && after[id].token == m.token)
  }

  lemma StillDrawn(moves: seq<Move>, i: nat, before: map<string, Job>, after: map<string, Job>)
    requires i < |moves| && TokensDrawn(moves, i, before) && AddsAtMost(moves[i], before, after)
    ensures TokensDrawn(moves, i + 1, after)
  {
    forall id | id in after ensures Drawn(moves, i + 1, id, after[id].token) {
      assert id in before && after[id] == before[id] ==> Drawn(moves, i, id, before[id].token);
    }
  }

  method ServeMove(store: JobStore, ghost c: Config, desk: Desk, m: Move, ghost clock: int)
    returns (desk': Desk, answer: Option<Job>, ghost c': Config)
    requires InStep(store, c, desk)
    requires store.clock <= clock <= StartOf(m, clock) <= EndOf(m, clock)
    requires m.Step? ==> m.id !in c.ledger
    modifies store
    ensures InStep(store, c', desk') && store.clock <= EndOf(m, clock)
    ensures AddsAtMost(m, c.ledger, c'.ledger)
    ensures answer.Some? ==> m.Look? && m.id in c.ledger && answer.value.id == m.id && c.ledger[m.id].token == m.token
  {
    desk', answer, c' := desk, None, c;
    match m {
      case Come(r, tenantId, scaleId, ip) =>
        if r !in desk.requests {
          ghost var a := Arrive(r, tenantId, scaleId, ip);
          c' := Apply(c, a);
          desk' := desk.(requests := desk.requests[r := Request(tenantId, scaleId, ip, Searching)]);
          StepLeads(c, a);
          LeadsOn(INITIAL, c, c');
        }
      case Step(r, now, later, id, token) =>
        if r in desk.requests && desk.requests[r].phase != Done {
          desk', c' := ServeStep(store, c, desk, r, now, later, id, token);
        }
      case Look(id, token, now) =>
        ghost var a;
        answer, a := Fetch(store, c, id, token, now);
        c' := Apply(c, a);
        StepLeads(c, a);
        LeadsOn(INITIAL, c, c');
    }
  }

  method ServeStep(store: JobStore, ghost c: Config, desk: Desk, r: nat, now: int, later: int, id: string, token: string)
    returns (desk': Desk, ghost c': Config)
    requires InStep(store, c, desk)
    requires r in desk.requests && desk.requests[r].phase != Done && store.clock <= now <= later && id !in c.ledger
    modifies store
    ensures InStep(store, c', desk') && store.clock <= later
    ensures AddsAtMost(Step(r, now, later, id, token), c.ledger, c'.ledger)
  {
    var q := desk.requests[r];
    ghost var a;
    match q.phase {
      case Searching =>
        var found;
        found, a := Search(store, c, r, q, now);
        desk' := desk.(requests := desk.requests[r := q.(phase := if found then Done else Asking)]);
      case Asking =>
        var allowed;
        allowed, a := AskThrottle(store, c, r, q, now, later);
        desk' := Desk(desk.requests[r := q.(phase := if allowed then Granted(desk.grants) else Done)],
                      desk.grants + if allowed then 1 else 0);
      case Granted(_) =>
        a := Issue(store, c, r, q, now, id, token);
        desk' := desk.(requests := desk.requests[r := q.(phase := Done)]);
    }
    c' := Apply(c, a);
    StepLeads(c, a);
    LeadsOn(INITIAL, c, c');
  }

  function Held(jobs: map<string, Job>, tenantId: string, now: int): set<string> {
    set id | id in jobs && jobs[id].tenantId == tenantId && !Expired(jobs[id], now)
  }

  // A served store never holds more unexpired jobs of a tenant than the protocol's bound allows: 61 as long as jobs follow
  // their grants within less than five seconds.
  lemma HeldIsBounded(store: JobStore, c: Config, tenantId: string, lag: nat, now: int)
    requires Leads(INITIAL, c) && Mirrors(store, c) && LagAtMost(c, tenantId, lag) && now >= store.clock
    ensures |Held(store.exportJobs, tenantId, now)| <= (JOB_TTL + lag) / MIN_INTERVAL + 1
    ensures lag < MIN_INTERVAL ==> |Held(store.exportJobs, tenantId, now)| <= 61
  {
    var actions :| IsRun(INITIAL, actions) && Run(INITIAL, actions) == c;
    AliveBound(actions, tenantId, now, lag);
    var held, alive := Held(store.exportJobs, tenantId, now), Alive(c, tenantId, now);
    assert alive == held + (alive - held);
  }
}
