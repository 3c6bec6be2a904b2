// Concurrent export requests, interleaved at the three locks each of them takes one after the other:
// FindRecentExportJob, AllowExport, CreateExportJob.
module ExportProtocol {
  import opened Wrappers
  import opened ExportJobs

  datatype Phase = Searching | Asking | Granted(grant: nat) | Done

  datatype Request = Request(tenantId: string, scaleId: string, ip: string, phase: Phase)

  datatype Grant = Grant(tenantId: string, time: int)

  // grants lists every yes of AllowExport in order; origin says which of them a job was created under.
  datatype Config = Config(
    ledger: map<string, Job>,
    last: map<string, int>,
    clock: int,
    requests: map<nat, Request>,
    grants: seq<Grant>,
    origin: map<string, nat>)

  datatype Action =
    | Arrive(r: nat, tenantId: string, scaleId: string, ip: string)
    | Find(r: nat, now: int, found: Option<string>)
    | Allow(r: nat, checked: int, granted: int)
    | Create(r: nat, now: int, id: string, token: string)
    | Get(now: int)

  const INITIAL := Config(map[], map[], 0, map[], [], map[])

  predicate InPhase(c: Config, r: nat, phase: Phase) {
    r in c.requests && c.requests[r].phase == phase
  }

  ghost predicate Enabled(c: Config, a: Action) {
    match a
    case Arrive(r, _, _, _) => r !in c.requests
    case Find(r, now, found) =>
      && InPhase(c, r, Searching) && now >= c.clock
      && var q := c.requests[r];
         (match found
          case Some(id) => id in c.ledger && Matches(c.ledger[id], q.tenantId, q.scaleId, q.ip, REUSE_WINDOW, now)
          case None => forall id :: id in c.ledger ==> !Matches(c.ledger[id], q.tenantId, q.scaleId, q.ip, REUSE_WINDOW, now))
    case Allow(r, checked, granted) => InPhase(c, r, Asking) && c.clock <= checked <= granted
    case Create(r, now, id, _) => r in c.requests && c.requests[r].phase.Granted? && now >= c.clock && id !in c.ledger
    case Get(now) => now >= c.clock
  }

  function WithPhase(c: Config, r: nat, phase: Phase): Config
    requires r in c.requests
  {
    c.(requests := c.requests[r := c.requests[r].(phase := phase)])
  }

  ghost function Apply(c: Config, a: Action): Config
    requires Enabled(c, a)
  {
    match a
    case Arrive(r, tenantId, scaleId, ip) => c.(requests := c.requests[r := Request(tenantId, scaleId, ip, Searching)])
    case Find(r, now, found) => WithPhase(c, r, if found.Some? then Done else Asking).(clock := now)
    case Allow(r, checked, granted) =>
      var t := c.requests[r].tenantId;
      if Allowed(c.last, t, MIN_INTERVAL, checked) then
        WithPhase(c, r, Granted(|c.grants|)).(clock := granted, last := c.last[t := granted], grants := c.grants + [Grant(t, granted)])
      else
        WithPhase(c, r, Done).(clock := granted)
    case Create(r, now, id, token) =>
      var q := c.requests[r];
      var job := Job(id, q.tenantId, q.scaleId, token, q.ip, now, now + JOB_TTL);
      WithPhase(c, r, Done).(clock := now, ledger := c.ledger[id := job], origin := c.origin[id := q.phase.grant])
    case Get(now) => c.(clock := now)
  }

  ghost predicate IsRun(c: Config, actions: seq<Action>)
    decreases actions
  {
    actions == [] || (Enabled(c, actions[0]) && IsRun(Apply(c, actions[0]), actions[1..]))
  }

  ghost function Run(c: Config, actions: seq<Action>): Config
    requires IsRun(c, actions)
    decreases actions
  {
    if actions == [] then c else Run(Apply(c, actions[0]), actions[1..])
  }

  // Grants of one tenant keep their distance, in the order they were given.
  predicate Spaced(grants: seq<Grant>) {
    forall i, j :: 0 <= i < j < |grants| && grants[i].tenantId == grants[j].tenantId ==>
      grants[j].time - grants[i].time >= MIN_INTERVAL
  }

  predicate LastIsLatest(c: Config) {
    forall i :: 0 <= i < |c.grants| ==>
      && c.grants[i].tenantId in c.last
      && c.grants[i].time <= c.last[c.grants[i].tenantId]
      && c.grants[i].time <= c.clock
  }

  predicate OpenGrants(c: Config) {
    && (forall r :: r in c.requests && c.requests[r].phase.Granted? ==>
         var g := c.requests[r].phase.grant;
         && g < |c.grants| && c.grants[g].tenantId == c.requests[r].tenantId
         && (forall id :: id in c.origin ==> c.origin[id] != g))
    && (forall r, r' :: r in c.requests && r' in c.requests && r != r' && c.requests[r].phase.Granted? ==>
         c.requests[r].phase != c.requests[r'].phase)
  }

  predicate JobsFromGrants(c: Config) {
    && c.origin.Keys == c.ledger.Keys
    && (forall id :: id in c.ledger ==>
         && c.origin[id] < |c.grants|
         && c.grants[c.origin[id]].tenantId == c.ledger[id].tenantId
         && c.grants[c.origin[id]].time <= c.ledger[id].createdAt <= c.clock
         && c.ledger[id].expiresAt == c.ledger[id].createdAt + JOB_TTL)
    && (forall id, id' :: id in c.ledger && id' in c.ledger && id != id' ==> c.origin[id] != c.origin[id'])
  }

  predicate Inv(c: Config) {
    Spaced(c.grants) && LastIsLatest(c) && OpenGrants(c) && JobsFromGrants(c)
  }

  lemma StepKeepsInv(c: Config, a: Action)
    requires Inv(c) && Enabled(c, a)
    ensures Inv(Apply(c, a))
  {
    match a {
      case Allow(r, checked, granted) => AllowKeepsInv(c, r, checked, granted);
      case Create(r, now, id, token) => CreateKeepsInv(c, r, now, id, token);
      case _ => OtherStepsKeepInv(c, a);
    }
  }

  // Every open grant of c' is one of c.
  predicate FewerOpen(c: Config, c': Config) {
    && (forall r :: r in c'.requests && c'.requests[r].phase.Granted? ==> r in c.requests && c.requests[r] == c'.requests[r])
  }

  lemma OpenGrantsKept(c: Config, c': Config)
    requires OpenGrants(c) && FewerOpen(c, c') && c'.grants == c.grants && c'.origin == c.origin
    ensures OpenGrants(c')
  {
    forall r, r' | r in c'.requests && r' in c'.requests && r != r' && c'.requests[r].phase.Granted?
      ensures c'.requests[r].phase != c'.requests[r'].phase
    {
      if c'.requests[r'].phase.Granted? {
        assert r in c.requests && r' in c.requests;
      }
    }
  }

  lemma OtherStepsKeepInv(c: Config, a: Action)
    requires Inv(c) && Enabled(c, a) && !a.Allow? && !a.Create?
    ensures Inv(Apply(c, a))
  {
    InvKept(c, Apply(c, a));
  }

  lemma InvKept(c: Config, c': Config)
    requires Inv(c) && FewerOpen(c, c') && c'.clock >= c.clock
    requires c'.grants == c.grants && c'.last == c.last && c'.ledger == c.ledger && c'.origin == c.origin
    ensures Inv(c')
  {
    OpenGrantsKept(c, c');
  }

  lemma AllowKeepsInv(c: Config, r: nat, checked: int, granted: int)
    requires Inv(c) && Enabled(c, Allow(r, checked, granted))
    ensures Inv(Apply(c, Allow(r, checked, granted)))
  {
    var c' := Apply(c, Allow(r, checked, granted));
    var t := c.requests[r].tenantId;
    if Allowed(c.last, t, MIN_INTERVAL, checked) {
      GrantsAfterAllow(c, c', t, checked, granted);
      OpenGrantsAfterAllow(c, c', r, granted);
      JobsAfterAllow(c, c', t, granted);
    } else {
      InvKept(c, c');
    }
  }

  lemma GrantsAfterAllow(c: Config, c': Config, tenantId: string, checked: int, granted: int)
    requires Spaced(c.grants) && LastIsLatest(c) && Allowed(c.last, tenantId, MIN_INTERVAL, checked)
    requires c.clock <= checked <= granted
    requires c'.grants == c.grants + [Grant(tenantId, granted)] && c'.last == c.last[tenantId := granted] && c'.clock == granted
    ensures Spaced(c'.grants) && LastIsLatest(c')
  {
  }

  lemma OpenGrantsAfterAllow(c: Config, c': Config, r: nat, granted: int)
    requires OpenGrants(c) && JobsFromGrants(c) && r in c.requests && c.requests[r].phase == Asking
    requires c'.requests == c.requests[r := c.requests[r].(phase := Granted(|c.grants|))] && c'.origin == c.origin
    requires c'.grants == c.grants + [Grant(c.requests[r].tenantId, granted)]
    ensures OpenGrants(c')
  {
    forall q | q in c'.requests && c'.requests[q].phase.Granted? && q != r
      ensures c.requests[q] == c'.requests[q] && c.requests[q].phase.grant < |c.grants|
    {
    }
  }

  lemma JobsAfterAllow(c: Config, c': Config, tenantId: string, granted: int)
    requires JobsFromGrants(c) && c'.ledger == c.ledger && c'.origin == c.origin
    requires c'.grants == c.grants + [Grant(tenantId, granted)] && c'.clock == granted >= c.clock
    ensures JobsFromGrants(c')
  {
  }

  lemma CreateKeepsInv(c: Config, r: nat, now: int, id: string, token: string)
    requires Inv(c) && Enabled(c, Create(r, now, id, token))
    ensures Inv(Apply(c, Create(r, now, id, token)))
  {
    var c' := Apply(c, Create(r, now, id, token));
    OpenGrantsAfterCreate(c, c', r, id);
    JobsAfterCreate(c, c', r, id);
  }

  lemma OpenGrantsAfterCreate(c: Config, c': Config, r: nat, id: string)
    requires OpenGrants(c) && r in c.requests && c.requests[r].phase.Granted?
    requires c'.requests == c.requests[r := c.requests[r].(phase := Done)] && c'.grants == c.grants
    requires c'.origin == c.origin[id := c.requests[r].phase.grant]
    ensures OpenGrants(c')
  {
    forall q | q in c'.requests && c'.requests[q].phase.Granted?
      ensures q != r && q in c.requests && c.requests[q] == c'.requests[q] && c'.requests[q].phase != c.requests[r].phase
    {
    }
  }

  lemma JobsAfterCreate(c: Config, c': Config, r: nat, id: string)
    requires JobsFromGrants(c) && LastIsLatest(c) && OpenGrants(c) && r in c.requests && c.requests[r].phase.Granted? && id !in c.ledger
    requires c'.clock >= c.clock && c'.grants == c.grants && c'.ledger.Keys == c.ledger.Keys + {id}
    requires c'.origin == c.origin[id := c.requests[r].phase.grant]
    requires forall x :: x in c.ledger ==> c'.ledger[x] == c.ledger[x]
    requires var job := c'.ledger[id];
             job.tenantId == c.requests[r].tenantId && job.createdAt == c'.clock && job.expiresAt == c'.clock + JOB_TTL
    ensures JobsFromGrants(c')
  {
    assert c'.origin.Keys == c'.ledger.Keys;
    forall x, y | x in c'.ledger && y in c'.ledger && x != y ensures c'.origin[x] != c'.origin[y] {
      assert x != id ==> x in c.ledger;
      assert y != id ==> y in c.ledger;
    }
  }

  lemma {:induction false} RunKeepsInv(c: Config, actions: seq<Action>)
    requires Inv(c) && IsRun(c, actions)
    ensures Inv(Run(c, actions))
    decreases actions
  {
    if actions != [] {
      StepKeepsInv(c, actions[0]);
      RunKeepsInv(Apply(c, actions[0]), actions[1..]);
    }
  }

  // However requests interleave, two exports of one tenant are granted at least five seconds apart.
  lemma GrantsAreSpaced(actions: seq<Action>, i: nat, j: nat)
    requires IsRun(INITIAL, actions)
    requires var grants := Run(INITIAL, actions).grants; i < j < |grants| && grants[i].tenantId == grants[j].tenantId
    ensures var grants := Run(INITIAL, actions).grants; grants[j].time - grants[i].time >= MIN_INTERVAL
  {
    RunKeepsInv(INITIAL, actions);
  }

  // ----- how many jobs can be alive -----

  function Alive(c: Config, tenantId: string, now: int): set<string> {
    set id | id in c.ledger && c.ledger[id].tenantId == tenantId && !Expired(c.ledger[id], now)
  }

  predicate HasGrant(c: Config, id: string) {
    id in c.ledger && id in c.origin && c.origin[id] < |c.grants|
  }

  // No job was created more than lag after its grant.
  predicate LagAtMost(c: Config, tenantId: string, lag: nat) {
    forall id :: id in c.ledger && HasGrant(c, id) && c.ledger[id].tenantId == tenantId ==>
      c.ledger[id].createdAt - c.grants[c.origin[id]].time <= lag
  }

  predicate InWindow(grants: seq<Grant>, tenantId: string, chosen: set<nat>, low: int, high: int) {
    forall g :: g in chosen ==> g < |grants| && grants[g].tenantId == tenantId && low <= grants[g].time <= high
  }

  lemma {:induction false} GreatestExists(chosen: set<nat>) returns (g: nat)
    requires chosen != {}
    ensures g in chosen && forall h :: h in chosen ==> h <= g
    decreases |chosen|
  {
    g :| g in chosen;
    var others := chosen - {g};
    if others != {} {
      var h := GreatestExists(others);
      g := if g < h then h else g;
    }
    forall x | x in chosen ensures x <= g {
      assert x in others || x !in others;
    }
  }

  lemma {:induction false} WindowBound(grants: seq<Grant>, tenantId: string, chosen: set<nat>, low: int, high: int)
    requires Spaced(grants) && InWindow(grants, tenantId, chosen, low, high) && low <= high
    ensures |chosen| <= (high - low) / MIN_INTERVAL + 1
    decreases |chosen|
  {
    if chosen != {} {
      var g := GreatestExists(chosen);
      var others := chosen - {g};
      assert |chosen| == |others| + 1;
      if others != {} {
        var high' := grants[g].time - MIN_INTERVAL;
        forall h | h in others ensures grants[h].time <= high' {
          assert h < g;
        }
        var h :| h in others;
        WindowBound(grants, tenantId, others, low, high');
      }
    }
  }

  lemma {:induction false} ImageSize(ids: set<string>, origin: map<string, nat>)
    requires ids <= origin.Keys
    requires forall x, y :: x in ids && y in ids && x != y ==> origin[x] != origin[y]
    ensures |set id | id in ids :: origin[id]| == |ids|
    decreases |ids|
  {
    if ids != {} {
      var x :| x in ids;
      ImageSize(ids - {x}, origin);
      assert (set id | id in ids :: origin[id]) == (set id | id in ids - {x} :: origin[id]) + {origin[x]};
    }
  }

  // At every instant of every run a tenant has at most (lifetime + lag) / 5 s + 1 unexpired jobs.
  lemma AliveBound(actions: seq<Action>, tenantId: string, now: int, lag: nat)
    requires IsRun(INITIAL, actions) && now >= Run(INITIAL, actions).clock
    requires LagAtMost(Run(INITIAL, actions), tenantId, lag)
    ensures |Alive(Run(INITIAL, actions), tenantId, now)| <= (JOB_TTL + lag) / MIN_INTERVAL + 1
  {
    RunKeepsInv(INITIAL, actions);
    AliveBoundIn(Run(INITIAL, actions), tenantId, now, lag);
  }

  lemma AliveBoundIn(c: Config, tenantId: string, now: int, lag: nat)
    requires Inv(c) && now >= c.clock && LagAtMost(c, tenantId, lag)
    ensures |Alive(c, tenantId, now)| <= (JOB_TTL + lag) / MIN_INTERVAL + 1
  {
    var alive := Alive(c, tenantId, now);
    assert forall id :: id in alive ==> HasGrant(c, id);
    ImageSize(alive, c.origin);
    var chosen := set id | id in alive :: c.origin[id];
    WindowBound(c.grants, tenantId, chosen, now - JOB_TTL - lag, now);
  }

  // ----- the bound is reached -----

  lemma {:induction false} RunAppend(c: Config, xs: seq<Action>, ys: seq<Action>)
    requires IsRun(c, xs) && IsRun(Run(c, xs), ys)
    ensures IsRun(c, xs + ys) && Run(c, xs + ys) == Run(Run(c, xs), ys)
    decreases xs
  {
    if xs == [] {
      assert xs + ys == ys;
    } else {
      assert (xs + ys)[0] == xs[0] && (xs + ys)[1..] == xs[1..] + ys;
      RunAppend(Apply(c, xs[0]), xs[1..], ys);
    }
  }

  // Some run leads from c to end.
  ghost predicate Leads(c: Config, end: Config) {
    exists actions :: IsRun(c, actions) && Run(c, actions) == end
  }

  lemma StepLeads(c: Config, a: Action)
    requires Enabled(c, a)
    ensures Leads(c, Apply(c, a))
  {
    assert IsRun(Apply(c, a), [a][1..]);
    assert IsRun(c, [a]) && Run(c, [a]) == Apply(c, a);
  }

  lemma StayLeads(c: Config)
    ensures Leads(c, c)
  {
    assert IsRun(c, []) && Run(c, []) == c;
  }

  lemma LeadsOn(c: Config, mid: Config, end: Config)
    requires Leads(c, mid) && Leads(mid, end)
    ensures Leads(c, end)
  {
    var xs :| IsRun(c, xs) && Run(c, xs) == mid;
    var ys :| IsRun(mid, ys) && Run(mid, ys) == end;
    RunAppend(c, xs, ys);
    assert IsRun(c, xs + ys) && Run(c, xs + ys) == end;
  }

  // n requests of one tenant, granted five seconds apart, none of them through to CreateExportJob.
  predicate Stalled(c: Config, n: nat) {
    && c.ledger == map[] && c.clock == n * MIN_INTERVAL && |c.grants| == n
    && (forall r :: r in c.requests ==> r < n)
    && (forall r :: 0 <= r < n ==> r in c.requests && c.requests[r] == Request("T", "", "", Granted(r)))
    && (forall g :: 0 <= g < n ==> c.grants[g].time >= MIN_INTERVAL)
    && ("T" in c.last ==> c.last["T"] <= n * MIN_INTERVAL)
  }

  lemma StallOneMore(c: Config, n: nat) returns (end: Config)
    requires Stalled(c, n)
    ensures Leads(c, end) && Stalled(end, n + 1)
  {
    var later := (n + 1) * MIN_INTERVAL;
    var a1, a2, a3 := Arrive(n, "T", "", ""), Find(n, c.clock, None), Allow(n, later, later);
    var c1 := Apply(c, a1);
    var c2 := Apply(c1, a2);
    end := Apply(c2, a3);
    ThreeSteps(c, a1, a2, a3);
  }

  lemma ThreeSteps(c: Config, a1: Action, a2: Action, a3: Action)
    requires Enabled(c, a1) && Enabled(Apply(c, a1), a2) && Enabled(Apply(Apply(c, a1), a2), a3)
    ensures Leads(c, Apply(Apply(Apply(c, a1), a2), a3))
  {
    var c1 := Apply(c, a1);
    var c2 := Apply(c1, a2);
    StepLeads(c, a1);
    StepLeads(c1, a2);
    StepLeads(c2, a3);
    LeadsOn(c, c1, c2);
    LeadsOn(c, c2, Apply(c2, a3));
  }

  lemma {:induction false} StallMany(n: nat) returns (end: Config)
    ensures Leads(INITIAL, end) && Stalled(end, n)
  {
    if n == 0 {
      end := INITIAL;
      StayLeads(INITIAL);
    } else {
      var before := StallMany(n - 1);
      end := StallOneMore(before, n - 1);
      LeadsOn(INITIAL, before, end);
    }
  }

  function JobId(k: nat): string {
    seq(k, i => 'j')
  }

  // k jobs of the tenant, none created before since or more than lag after its grant. Job and scale ids are short
  // enough for a longer one to be new.
  predicate Stocked(c: Config, k: nat, since: int, lag: nat) {
    && |c.ledger| == k && c.ledger.Keys <= c.origin.Keys
    && (forall id :: id in c.ledger ==> Fits(id, c.ledger[id], k, since) && Follows(c.ledger[id], c.origin[id], c.grants, lag))
  }

  predicate Fits(id: string, job: Job, k: nat, since: int) {
    && |id| < k && |job.scaleId| <= k && job.tenantId == "T"
    && job.createdAt >= since && job.expiresAt == job.createdAt + JOB_TTL
  }

  predicate Follows(job: Job, g: nat, grants: seq<Grant>, lag: nat) {
    g < |grants| && job.createdAt - grants[g].time <= lag
  }

  // One more job, created now.
  lemma StockedOneMore(c: Config, c': Config, k: nat, since: int, lag: nat, job: Job, g: nat)
    requires Stocked(c, k, since, lag)
    requires c'.ledger == c.ledger[job.id := job] && c'.origin == c.origin[job.id := g]
    requires |c'.grants| >= |c.grants| && forall i :: 0 <= i < |c.grants| ==> c'.grants[i] == c.grants[i]
    requires |job.id| == k && |job.scaleId| <= k + 1 && job.tenantId == "T"
    requires job.createdAt >= since && job.expiresAt == job.createdAt + JOB_TTL
    requires g < |c'.grants| && job.createdAt - c'.grants[g].time <= lag
    ensures Stocked(c', k + 1, since, lag)
  {
    assert job.id !in c.ledger;
    assert |c'.ledger| == k + 1;
  }

  // As long as the oldest of them may live, all of them do.
  lemma StockedAlive(c: Config, k: nat, since: int, lag: nat, now: int)
    requires Stocked(c, k, since, lag) && now <= since + JOB_TTL
    ensures |Alive(c, "T", now)| == k && LagAtMost(c, "T", lag)
  {
    assert Alive(c, "T", now) == c.ledger.Keys;
    assert |c.ledger.Keys| == |c.ledger|;
  }

  // The requests from k on still wait for their jobs.
  predicate Releasing(c: Config, n: nat, k: nat) {
    && |c.grants| == n
    && (forall r :: r in c.requests ==> r < n)
    && (forall r :: k <= r < n ==> r in c.requests && c.requests[r] == Request("T", "", "", Granted(r)))
    && (forall g :: 0 <= g < n ==> c.grants[g].time >= MIN_INTERVAL)
    && ("T" in c.last ==> c.last["T"] <= c.clock)
  }

  // After the k-th of them got its job.
  function Released(c: Config, k: nat): Config
    requires k in c.requests
  {
    var job := Job(JobId(k), "T", "", "t", "", c.clock, c.clock + JOB_TTL);
    WithPhase(c, k, Done).(ledger := c.ledger[job.id := job], origin := c.origin[job.id := k])
  }

  lemma ReleasedStocked(c: Config, n: nat, k: nat, lag: nat)
    requires k < n && Releasing(c, n, k) && Stocked(c, k, c.clock, lag) && c.clock - MIN_INTERVAL <= lag
    ensures JobId(k) !in c.ledger && Stocked(Released(c, k), k + 1, c.clock, lag)
  {
    assert |JobId(k)| == k;
    var c' := Released(c, k);
    StockedOneMore(c, c', k, c.clock, lag, c'.ledger[JobId(k)], k);
  }

  lemma ReleaseOne(c: Config, n: nat, k: nat, lag: nat) returns (next: Config)
    requires k < n && Releasing(c, n, k) && Stocked(c, k, c.clock, lag) && c.clock - MIN_INTERVAL <= lag
    ensures Leads(c, next) && next.clock == c.clock
    ensures Releasing(next, n, k + 1) && Stocked(next, k + 1, c.clock, lag)
  {
    ReleasedStocked(c, n, k, lag);
    var a := Create(k, c.clock, JobId(k), "t");
    next := Released(c, k);
    assert Apply(c, a) == next;
    StepLeads(c, a);
  }

  // The stalled requests go through one after the other, at one instant.
  lemma {:induction false} ReleaseAll(c: Config, n: nat, k: nat, lag: nat) returns (end: Config)
    requires k <= n && Releasing(c, n, k) && Stocked(c, k, c.clock, lag)
    requires n > 0 ==> c.clock - MIN_INTERVAL <= lag
    ensures Leads(c, end) && end.clock == c.clock
    ensures Releasing(end, n, n) && Stocked(end, n, c.clock, lag)
    decreases n - k
  {
    if k == n {
      end := c;
      StayLeads(c);
    } else {
      var next := ReleaseOne(c, n, k, lag);
      end := ReleaseAll(next, n, k + 1, lag);
      LeadsOn(c, next, end);
    }
  }

  // Requests held up between their grant and their job can put any number of jobs into one instant: the throttle spaces
  // the grants, not the jobs.
  lemma PileUp(n: nat, lag: nat) returns (end: Config)
    requires n > 0 ==> (n - 1) * MIN_INTERVAL <= lag
    ensures Leads(INITIAL, end) && end.clock == n * MIN_INTERVAL
    ensures Releasing(end, n, n) && Stocked(end, n, n * MIN_INTERVAL, lag)
  {
    var stalled := StallMany(n);
    end := ReleaseAll(stalled, n, 0, lag);
    LeadsOn(INITIAL, stalled, end);
  }

  lemma StalledRequestsPileUp(n: nat)
    ensures exists actions, now :: IsRun(INITIAL, actions) && now == Run(INITIAL, actions).clock && |Alive(Run(INITIAL, actions), "T", now)| == n
  {
    var end := PileUp(n, n * MIN_INTERVAL);
    StockedAlive(end, n, n * MIN_INTERVAL, n * MIN_INTERVAL, end.clock);
    var actions :| IsRun(INITIAL, actions) && Run(INITIAL, actions) == end;
  }

  // A tenant asking every five seconds, for another scale each time so that no job is reused.
  predicate ReadyToAsk(c: Config, k: nat) {
    && (forall r :: r in c.requests ==> r < k)
    && ("T" in c.last ==> c.last["T"] <= c.clock)
  }

  // After one request more, granted and served at one later instant.
  function Asked(c: Config, k: nat, later: int): Config {
    var job := Job(JobId(k), "T", JobId(k + 1), "t", "", later, later + JOB_TTL);
    Config(c.ledger[job.id := job], c.last["T" := later], later, c.requests[k := Request("T", job.scaleId, "", Done)],
           c.grants + [Grant("T", later)], c.origin[job.id := |c.grants|])
  }

  // The same before the job is created.
  function Permitted(c: Config, k: nat, later: int): Config {
    c.(last := c.last["T" := later], clock := later, grants := c.grants + [Grant("T", later)],
       requests := c.requests[k := Request("T", JobId(k + 1), "", Granted(|c.grants|))])
  }

  lemma AskPermission(c: Config, k: nat, later: int)
    requires k !in c.requests && later == c.clock + MIN_INTERVAL
    requires forall id :: id in c.ledger ==> c.ledger[id].scaleId != JobId(k + 1)
    requires "T" in c.last ==> c.last["T"] <= c.clock
    ensures Leads(c, Permitted(c, k, later))
  {
    var a1, a2, a3 := Arrive(k, "T", JobId(k + 1), ""), Find(k, c.clock, None), Allow(k, later, later);
    ThreeSteps(c, a1, a2, a3);
    assert Apply(Apply(Apply(c, a1), a2), a3) == Permitted(c, k, later);
  }

  lemma AskSteps(c: Config, k: nat)
    requires k !in c.requests && JobId(k) !in c.ledger
    requires forall id :: id in c.ledger ==> c.ledger[id].scaleId != JobId(k + 1)
    requires "T" in c.last ==> c.last["T"] <= c.clock
    ensures Leads(c, Asked(c, k, c.clock + MIN_INTERVAL))
  {
    var later := c.clock + MIN_INTERVAL;
    AskPermission(c, k, later);
    var a4 := Create(k, later, JobId(k), "t");
    assert Apply(Permitted(c, k, later), a4) == Asked(c, k, later);
    StepLeads(Permitted(c, k, later), a4);
    LeadsOn(c, Permitted(c, k, later), Asked(c, k, later));
  }

  lemma AskedStocked(c: Config, k: nat, since: int, lag: nat)
    requires Stocked(c, k, since, lag) && ReadyToAsk(c, k) && c.clock >= since
    ensures var end := Asked(c, k, c.clock + MIN_INTERVAL); Stocked(end, k + 1, since, lag) && ReadyToAsk(end, k + 1)
    ensures JobId(k) !in c.ledger && forall id :: id in c.ledger ==> c.ledger[id].scaleId != JobId(k + 1)
  {
    assert |JobId(k)| == k && |JobId(k + 1)| == k + 1;
    var end := Asked(c, k, c.clock + MIN_INTERVAL);
    StockedOneMore(c, end, k, since, lag, end.ledger[JobId(k)], |c.grants|);
  }

  function Later(clock: int, times: nat): int
    decreases times
  {
    if times == 0 then clock else Later(clock + MIN_INTERVAL, times - 1)
  }

  lemma LaterStep(clock: int, next: int, times: nat)
    requires times > 0 && next == clock + MIN_INTERVAL
    ensures Later(clock, times) == Later(next, times - 1)
  {
  }

  lemma {:induction false} LaterIs(clock: int, times: nat)
    ensures Later(clock, times) == clock + times * MIN_INTERVAL
    decreases times
  {
    if times > 0 {
      LaterIs(clock + MIN_INTERVAL, times - 1);
    }
  }

  lemma AskOnceMore(c: Config, k: nat, since: int, lag: nat) returns (next: Config)
    requires Stocked(c, k, since, lag) && ReadyToAsk(c, k) && c.clock >= since
    ensures Leads(c, next) && next.clock == c.clock + MIN_INTERVAL
    ensures Stocked(next, k + 1, since, lag) && ReadyToAsk(next, k + 1)
  {
    AskedStocked(c, k, since, lag);
    AskSteps(c, k);
    next := Asked(c, k, c.clock + MIN_INTERVAL);
  }

  lemma {:induction false} AskMany(c: Config, k: nat, since: int, lag: nat, all: nat, until: int) returns (end: Config)
    requires k <= all && Stocked(c, k, since, lag) && ReadyToAsk(c, k) && c.clock >= since && until == Later(c.clock, all - k)
    ensures Leads(c, end)
    ensures Stocked(end, all, since, lag) && end.clock == until
    decreases all - k
  {
    if k == all {
      end := c;
      StayLeads(c);
    } else {
      var next := AskOnceMore(c, k, since, lag);
      LaterStep(c.clock, next.clock, all - k);
      end := AskMany(next, k + 1, since, lag, all, until);
      LeadsOn(c, next, end);
    }
  }

  // In some run whose jobs follow their grants within lag, exactly that many are alive at the end.
  ghost predicate Reaches(lag: nat, count: nat) {
    exists end :: Leads(INITIAL, end) && Reached(end, lag, count)
  }

  predicate Reached(c: Config, lag: nat, count: nat) {
    LagAtMost(c, "T", lag) && |Alive(c, "T", c.clock)| == count
  }

  // For every lag the bound is reached: requests stalled for the whole lag go through at once, and for the lifetime of
  // their jobs one more is created every five seconds.
  lemma BoundIsReached(lag: nat)
    ensures Reaches(lag, (JOB_TTL + lag) / MIN_INTERVAL + 1)
  {
    var n := lag / MIN_INTERVAL + 1;
    WholeIntervals(lag, n);
    var end := PileUpThenAsk(n, lag);
    StockedAlive(end, n + 60, n * MIN_INTERVAL, lag, end.clock);
    assert Leads(INITIAL, end) && Reached(end, lag, n + 60);
  }

  lemma WholeIntervals(lag: nat, n: nat)
    requires n == lag / MIN_INTERVAL + 1
    ensures (n - 1) * MIN_INTERVAL <= lag && n + 60 == (JOB_TTL + lag) / MIN_INTERVAL + 1
  {
  }

  lemma PileUpThenAsk(n: nat, lag: nat) returns (end: Config)
    requires n > 0 && (n - 1) * MIN_INTERVAL <= lag
    ensures Leads(INITIAL, end) && end.clock == n * MIN_INTERVAL + JOB_TTL
    ensures Stocked(end, n + 60, n * MIN_INTERVAL, lag)
  {
    var piled := PileUp(n, lag);
    LaterIs(n * MIN_INTERVAL, 60);
    end := AskMany(piled, n, n * MIN_INTERVAL, lag, n + 60, n * MIN_INTERVAL + JOB_TTL);
    LeadsOn(INITIAL, piled, end);
  }

  ghost predicate NeverMoreThan(lag: nat, count: nat) {
    forall actions, tenantId, now ::
      IsRun(INITIAL, actions) && now >= Run(INITIAL, actions).clock && LagAtMost(Run(INITIAL, actions), tenantId, lag)
      ==> |Alive(Run(INITIAL, actions), tenantId, now)| <= count
  }

  // So the bound is the least there is.
  lemma BoundIsExact(lag: nat, count: nat)
    ensures NeverMoreThan(lag, count) <==> count >= (JOB_TTL + lag) / MIN_INTERVAL + 1
  {
    if count >= (JOB_TTL + lag) / MIN_INTERVAL + 1 {
      forall actions, tenantId, now |
        IsRun(INITIAL, actions) && now >= Run(INITIAL, actions).clock && LagAtMost(Run(INITIAL, actions), tenantId, lag)
        ensures |Alive(Run(INITIAL, actions), tenantId, now)| <= count
      {
        AliveBound(actions, tenantId, now, lag);
      }
    } else {
      BoundIsReached(lag);
      var end :| Leads(INITIAL, end) && Reached(end, lag, (JOB_TTL + lag) / MIN_INTERVAL + 1);
      var actions :| IsRun(INITIAL, actions) && Run(INITIAL, actions) == end;
      assert |Alive(end, "T", end.clock)| > count;
    }
  }

  // A tenant never has more than 61 unexpired jobs, and 61 do occur, exactly when every job follows its grant within
  // less than five seconds.
  lemma AtMostSixtyOne(lag: nat)
    ensures NeverMoreThan(lag, 61) <==> lag < MIN_INTERVAL
    ensures Reaches(0, 61) && Reaches(MIN_INTERVAL, 62)
  {
    BoundIsExact(lag, 61);
    BoundIsReached(0);
    BoundIsReached(MIN_INTERVAL);
  }
}
