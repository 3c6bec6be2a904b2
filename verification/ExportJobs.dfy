// The export jobs of internal/api/store.go and internal/db/sqlite_store.go: a map that is pruned whenever somebody
// looks, and a throttle. ledger is the store that never deletes; every answer is the one it would give.
module ExportJobs {
  import opened Wrappers

  // Instants and durations in nanoseconds.
  const SECOND := 1_000_000_000
  const REUSE_WINDOW := 30 * SECOND
  const MIN_INTERVAL := 5 * SECOND
  const JOB_TTL := 300 * SECOND

  datatype Job = Job(id: string, tenantId: string, scaleId: string, token: string, requestIp: string, createdAt: int, expiresAt: int)

  predicate Expired(job: Job, now: int) {
    now > job.expiresAt
  }

  // A job a new request may reuse.
  predicate Matches(job: Job, tenantId: string, scaleId: string, ip: string, within: int, now: int) {
    && !Expired(job, now)
    && job.tenantId == tenantId && job.scaleId == scaleId
    && (ip == "" || job.requestIp == "" || job.requestIp == ip)
    && (within > 0 ==> now - job.createdAt <= within)
  }

  // What a store that never deletes answers.
  function Answer(ledger: map<string, Job>, id: string, token: string, now: int): Option<Job> {
    if id in ledger && !Expired(ledger[id], now) && token != "" && token == ledger[id].token then Some(ledger[id]) else None
  }

  class JobStore {
    var exportJobs: map<string, Job>
    var lastExport: map<string, int>
    ghost var ledger: map<string, Job>
    ghost var clock: int  // the latest instant any operation has read

    // Only expired jobs are missing.
    ghost predicate Valid()
      reads this
    {
      && (forall id :: id in exportJobs ==> id in ledger && exportJobs[id] == ledger[id])
      && (forall id :: id in ledger && id !in exportJobs ==> Expired(ledger[id], clock))
      && (forall id :: id in ledger ==> ledger[id].id == id)
    }

    constructor ()
      ensures Valid() && ledger == map[] && lastExport == map[] && clock == 0
    {
      exportJobs, lastExport, ledger, clock := map[], map[], map[], 0;
    }

    method CreateExportJob(tenantId: string, scaleId: string, ip: string, ttl: int, now: int, id: string, token: string)
        returns (job: Job)
      requires Valid() && now >= clock && id !in ledger
      modifies this
      ensures Valid() && clock == now && lastExport == old(lastExport)
      ensures job == Job(id, tenantId, scaleId, token, ip, now, now + ttl)
      ensures ledger == old(ledger)[id := job]
      ensures forall x :: x in exportJobs && x != id ==> !Expired(exportJobs[x], now)
    {
      clock := now;
      Prune(now);
      job := Job(id, tenantId, scaleId, token, ip, now, now + ttl);
      exportJobs := exportJobs[id := job];
      ledger := ledger[id := job];
    }

    // The loop over the map, in whatever order it comes.
    method Prune(now: int)
      requires Valid() && clock == now
      modifies this`exportJobs
      ensures Valid()
      ensures forall id :: id in exportJobs ==> !Expired(exportJobs[id], now)
    {
      var left := exportJobs.Keys;
      while left != {}
        invariant Valid()
        invariant left <= exportJobs.Keys
        invariant forall id :: id in exportJobs && id !in left ==> !Expired(exportJobs[id], now)
        decreases |left|
      {
        var id :| id in left;
        left := left - {id};
        if Expired(exportJobs[id], now) {
          exportJobs := exportJobs - {id};
        }
      }
    }

    method GetExportJob(id: string, token: string, now: int) returns (job: Option<Job>)
      requires Valid() && now >= clock
      modifies this`clock
      ensures Valid() && clock == now
      ensures job == Answer(ledger, id, token, now)
      // nobody gets a job without its token, and whoever has it gets the job until it expires
      ensures job.Some? ==> id in ledger && job.value == ledger[id] && job.value.id == id
                            && token != "" && job.value.token == token && now <= job.value.expiresAt
      ensures job.None? ==> !(id in ledger && token != "" && ledger[id].token == token && now <= ledger[id].expiresAt)
    {
      clock := now;
      if id !in exportJobs {
        return None;
      }
      var found := exportJobs[id];
      if Expired(found, now) {
        return None;
      }
      if token == "" || token != found.token {
        return None;
      }
      return Some(found);
    }

    // The first match in whatever order the map comes; expired jobs met on the way are deleted.
    method FindRecentExportJob(tenantId: string, scaleId: string, ip: string, within: int, now: int) returns (job: Option<Job>)
      requires Valid() && now >= clock
      modifies this`exportJobs, this`clock
      ensures Valid() && clock == now
      ensures job.Some? ==> job.value.id in ledger && ledger[job.value.id] == job.value
                            && Matches(job.value, tenantId, scaleId, ip, within, now)
      ensures job.None? ==> forall id :: id in ledger ==> !Matches(ledger[id], tenantId, scaleId, ip, within, now)
      // nobody is given another tenant's or another scale's job, or one asked for from another known address
      ensures job.Some? ==> job.value.tenantId == tenantId && job.value.scaleId == scaleId && now <= job.value.expiresAt
                            && (ip != "" && job.value.requestIp != "" ==> job.value.requestIp == ip)
                            && (within > 0 ==> now - job.value.createdAt <= within)
    {
      clock := now;
      var left := exportJobs.Keys;
      while left != {}
        invariant Valid() && clock == now
        invariant left <= exportJobs.Keys
        invariant forall id :: id in exportJobs && id !in left ==> !Matches(exportJobs[id], tenantId, scaleId, ip, within, now)
        decreases |left|
      {
        var id :| id in left;
        left := left - {id};
        var candidate := exportJobs[id];
        if Expired(candidate, now) {
          exportJobs := exportJobs - {id};
          continue;
        }
        if candidate.tenantId != tenantId || candidate.scaleId != scaleId {
          continue;
        }
        if ip != "" && candidate.requestIp != "" && candidate.requestIp != ip {
          continue;
        }
        if within > 0 && now - candidate.createdAt > within {
          continue;
        }
        return Some(candidate);
      }
      return None;
    }

    // The clock is read twice, before and after the decision.
    method AllowExport(tenantId: string, minInterval: int, checked: int, granted: int) returns (allowed: bool)
      requires Valid() && clock <= checked <= granted
      modifies this`lastExport, this`clock
      ensures Valid() && clock == granted
      ensures allowed <==> Allowed(old(lastExport), tenantId, minInterval, checked)
      ensures allowed <==> (tenantId in old(lastExport) ==> checked >= old(lastExport)[tenantId] + minInterval)
      ensures lastExport == if allowed then old(lastExport)[tenantId := granted] else old(lastExport)
    {
      clock := granted;
      if tenantId in lastExport && checked - lastExport[tenantId] < minInterval {
        return false;
      }
      lastExport := lastExport[tenantId := granted];
      return true;
    }
  }

  predicate Allowed(lastExport: map<string, int>, tenantId: string, minInterval: int, now: int) {
    tenantId in lastExport ==> now - lastExport[tenantId] >= minInterval
  }

  // A new request reuses a job of its tenant and scale, from its own or an unknown address, for exactly 30 s; the job
  // itself, which lives for 300 s, cannot have expired by then.
  lemma ReusableFor30Seconds(job: Job, tenantId: string, scaleId: string, ip: string, now: int)
    requires job.expiresAt == job.createdAt + JOB_TTL
    ensures Matches(job, tenantId, scaleId, ip, REUSE_WINDOW, now)
      <==> job.tenantId == tenantId && job.scaleId == scaleId && (ip != "" && job.requestIp != "" ==> job.requestIp == ip)
           && now <= job.createdAt + 30_000_000_000
    ensures job.expiresAt == job.createdAt + 300_000_000_000
  {
  }

  datatype ExportError = Forbidden | TooManyRequests

  // The instants one request reads, and the random strings it draws.
  datatype Draws = Draws(searched: int, checked: int, granted: int, created: int, id: string, token: string)

  method RequestExport(store: JobStore, ownsScale: bool, tenantId: string, scaleId: string, ip: string, d: Draws)
      returns (r: Result<Job, ExportError>)
    requires store.Valid() && store.clock <= d.searched <= d.checked <= d.granted <= d.created
    requires d.id !in store.ledger
    modifies store
    ensures store.Valid()
    // reuse: some matching job exists and one is returned; nothing else changes
    ensures ownsScale && (exists id :: id in old(store.ledger) && Matches(old(store.ledger)[id], tenantId, scaleId, ip, REUSE_WINDOW, d.searched))
            ==> r.Ok? && r.value.id in old(store.ledger) && r.value == old(store.ledger)[r.value.id]
                && Matches(r.value, tenantId, scaleId, ip, REUSE_WINDOW, d.searched)
                && store.ledger == old(store.ledger) && store.lastExport == old(store.lastExport)
    // otherwise a new job if the throttle lets it
    ensures ownsScale && (forall id :: id in old(store.ledger) ==> !Matches(old(store.ledger)[id], tenantId, scaleId, ip, REUSE_WINDOW, d.searched))
            ==> if Allowed(old(store.lastExport), tenantId, MIN_INTERVAL, d.checked)
                then r == Ok(Job(d.id, tenantId, scaleId, d.token, ip, d.created, d.created + JOB_TTL))
                     && store.ledger == old(store.ledger)[d.id := r.value]
                     && store.lastExport == old(store.lastExport)[tenantId := d.granted]
                else r == Err(TooManyRequests) && store.ledger == old(store.ledger) && store.lastExport == old(store.lastExport)
    ensures !ownsScale ==> r == Err(Forbidden) && store.ledger == old(store.ledger) && store.lastExport == old(store.lastExport)
  {
    if !ownsScale {
      return Err(Forbidden);
    }
    var recent := store.FindRecentExportJob(tenantId, scaleId, ip, REUSE_WINDOW, d.searched);
    if recent.Some? {
      return Ok(recent.value);
    }
    var allowed := store.AllowExport(tenantId, MIN_INTERVAL, d.checked, d.granted);
    if !allowed {
      return Err(TooManyRequests);
    }
    var job := store.CreateExportJob(tenantId, scaleId, ip, JOB_TTL, d.created, d.id, d.token);
    return Ok(job);
  }
}
