/**
 The queue's repository.  A method is one committed transaction; it changes `jobs` column by
 column and appends what it did to the ghost `log`.  `Valid` says that the log is lawful and
 replays to the table, so every theorem about lawful logs holds of every queue object.
 */
module JobQueueRepository {
  import opened Outcomes
  import opened BoundedText
  import opened JobQueueModel
  import opened Sequences

  datatype QueueError = InvalidArgument | LeaseLost | InsertConflict

  datatype EnqueueInput = EnqueueInput(
    jobType: JobType,
    payload: Payload,
    dedupeKey: Option<string>,
    priority: Option<int>,
    availableAt: Option<Instant>,
    maxAttempts: int)

  datatype EnqueuedJob = EnqueuedJob(id: Uuid, created: bool, job: Job)

  datatype ReclaimedJob = ReclaimedJob(id: Uuid, status: Status, attemptCount: int)

  datatype RetryOutcome = NotFound | NotDead | Unsupported | ActiveConflict | RetriedJob(job: Job)

  const MIN_LEASE_MS := 1_000
  const MAX_LEASE_MS := 900_000
  const MAX_BACKOFF_MS := 300_000

  predicate LeaseDuration(durationMs: int) {
    MIN_LEASE_MS <= durationMs <= MAX_LEASE_MS
  }

  predicate WorkerId(worker: string) {
    TrimmedWithin(worker, 200)
  }

  predicate ValidEnqueue(workspaceId: Option<Uuid>, input: EnqueueInput) {
    && (workspaceId.Some? ==> CanonicalUuid(workspaceId.value))
    && 1 <= input.maxAttempts <= 100
    && (input.priority.Some? ==> -1_000_000 <= input.priority.value <= 1_000_000)
    && (input.dedupeKey.Some? ==> TrimmedWithin(input.dedupeKey.value, 500))
    && (input.payload.providerConnectionId.Some? ==> CanonicalUuid(input.payload.providerConnectionId.value))
    && (input.payload.financialAccountId.Some? ==> CanonicalUuid(input.payload.financialAccountId.value))
  }

  predicate ValidFailure(worker: string, now: Instant, retryAt: Option<Instant>, code: string, summary: string) {
    && WorkerId(worker)
    && MachineCode(code)
    && TrimmedWithin(summary, 1_000) && !HasControl(summary)
    && (retryAt.Some? ==> now <= retryAt.value)
  }

  function Power2(n: nat): nat {
    if n == 0 then 1 else 2 * Power2(n - 1)
  }

  /** 1 s, 2 s, 4 s, ... capped at 300 s. */
  function BackoffMs(attemptCount: int): (ms: int)
    ensures MIN_LEASE_MS <= ms <= MAX_BACKOFF_MS
  {
    Power2Positive(Max(0, attemptCount - 1));
    var exponential := 1_000 * Power2(Max(0, attemptCount - 1));
    if exponential < MAX_BACKOFF_MS then exponential else MAX_BACKOFF_MS
  }

  lemma Power2Positive(n: nat)
    ensures 1 <= Power2(n)
  {
  }

  lemma {:induction false} BackoffIsMonotone(a: int, b: int)
    requires a <= b
    ensures BackoffMs(a) <= BackoffMs(b)
    decreases b - a
  {
    if a < b {
      BackoffIsMonotone(a, b - 1);
      if 0 <= b - 2 {
        assert Power2(b - 1) == 2 * Power2(b - 2);
      }
    }
  }

  // ---- claim order: priority descending, then creation time, then id ----

  predicate Ahead(jobs: Table, a: Uuid, b: Uuid)
    requires a in jobs && b in jobs
  {
    || jobs[a].priority > jobs[b].priority
    || (jobs[a].priority == jobs[b].priority
        && (jobs[a].createdAt < jobs[b].createdAt || (jobs[a].createdAt == jobs[b].createdAt && a < b)))
  }

  predicate Candidate(jobs: Table, id: Uuid, now: Instant, jobTypes: Option<seq<JobType>>, skipped: set<Uuid>) {
    && id in jobs && id !in skipped
    && jobs[id].Waiting()
    && jobs[id].availableAt <= now
    && jobs[id].attemptCount < jobs[id].maxAttempts
    && (jobTypes.Some? ==> jobs[id].jobType in jobTypes.value)
  }

  ghost predicate NextCandidate(jobs: Table, id: Uuid, now: Instant, jobTypes: Option<seq<JobType>>,
                                skipped: set<Uuid>) {
    && Candidate(jobs, id, now, jobTypes, skipped)
    && forall other :: Candidate(jobs, other, now, jobTypes, skipped) && other != id ==> Ahead(jobs, id, other)
  }

  lemma FrontExists(jobs: Table, ids: set<Uuid>) returns (front: Uuid)
    requires ids != {} && ids <= jobs.Keys
    ensures front in ids && forall other :: other in ids && other != front ==> Ahead(jobs, front, other)
  {
    front :| front in ids;
    if ids != {front} {
      var first := front;
      var rest := FrontExists(jobs, ids - {first});
      front := if Ahead(jobs, first, rest) then first else rest;
      forall other | other in ids && other != front
        ensures Ahead(jobs, front, other)
      {
        assert other == first || other in ids - {first};
      }
    }
  }

  // ---- reclaim order: lease expiry, then id ----

  predicate ExpiresBefore(jobs: Table, a: Uuid, b: Uuid)
    requires a in jobs && jobs[a].leaseExpiresAt.Some? && b in jobs && jobs[b].leaseExpiresAt.Some?
  {
    || jobs[a].leaseExpiresAt.value < jobs[b].leaseExpiresAt.value
    || (jobs[a].leaseExpiresAt == jobs[b].leaseExpiresAt && a < b)
  }

  function ExpiredIds(jobs: Table, now: Instant, skipped: set<Uuid>): set<Uuid> {
    set id | id in jobs && jobs[id].Expired(now) && id !in skipped
  }

  /** One row of the reclaim's SELECT. */
  datatype ExpiredRow = ExpiredRow(id: Uuid, attemptCount: int, maxAttempts: int)

  /** `rows` is what ORDER BY lease, id LIMIT limit returns: sorted, and everything left out comes later. */
  ghost predicate ExpiredSelection(jobs: Table, now: Instant, limit: nat, skipped: set<Uuid>, rows: seq<ExpiredRow>) {
    var expired := ExpiredIds(jobs, now, skipped);
    && (forall i :: 0 <= i < |rows| ==>
          rows[i].id in expired
            && rows[i] == ExpiredRow(rows[i].id, jobs[rows[i].id].attemptCount, jobs[rows[i].id].maxAttempts))
    && (forall i, j :: 0 <= i < j < |rows| ==> ExpiresBefore(jobs, rows[i].id, rows[j].id))
    && |rows| <= limit
    && (forall id :: id in expired ==>
          (exists i :: 0 <= i < |rows| && rows[i].id == id)
          || (|rows| == limit && forall i :: 0 <= i < |rows| ==> ExpiresBefore(jobs, rows[i].id, id)))
  }

  lemma FirstExpiredExists(jobs: Table, ids: set<Uuid>) returns (first: Uuid)
    requires ids != {} && ids <= jobs.Keys && forall id :: id in ids ==> jobs[id].leaseExpiresAt.Some?
    ensures first in ids && forall other :: other in ids && other != first ==> ExpiresBefore(jobs, first, other)
  {
    first :| first in ids;
    if ids != {first} {
      var one := first;
      var rest := FirstExpiredExists(jobs, ids - {one});
      first := if ExpiresBefore(jobs, one, rest) then one else rest;
      forall other | other in ids && other != first
        ensures ExpiresBefore(jobs, first, other)
      {
        assert other == one || other in ids - {one};
      }
    }
  }

  function RetryTime(row: ExpiredRow, now: Instant, retryAtForAttempt: Option<int -> Instant>): Instant {
    if row.attemptCount >= row.maxAttempts then now
    else if retryAtForAttempt.Some? then retryAtForAttempt.value(row.attemptCount)
    else now + BackoffMs(row.attemptCount)
  }

  /** The retry time of each row, by the caller's function or the default one. */
  function RetryTimes(now: Instant, retryAtForAttempt: Option<int -> Instant>): ExpiredRow -> Instant {
    (row: ExpiredRow) => RetryTime(row, now, retryAtForAttempt)
  }

  /** The updates a reclaim makes to the first `n` rows, in row order. */
  function ReclaimEvents(rows: seq<ExpiredRow>, n: nat, now: Instant, retryAt: ExpiredRow -> Instant): seq<Event>
    requires n <= |rows|
  {
    if n == 0 then []
    else ReclaimEvents(rows, n - 1, now, retryAt) + [Reclaimed(rows[n - 1].id, now, retryAt(rows[n - 1]))]
  }

  function ReclaimReport(row: ExpiredRow): ReclaimedJob {
    ReclaimedJob(row.id, if row.attemptCount >= row.maxAttempts then Dead else Retry, row.attemptCount)
  }

  /** What the caller is told about the first `n` rows, in row order. */
  function ReclaimReports(rows: seq<ExpiredRow>, n: nat): seq<ReclaimedJob>
    requires n <= |rows|
  {
    if n == 0 then [] else ReclaimReports(rows, n - 1) + [ReclaimReport(rows[n - 1])]
  }

  /** No row asks for a retry in the past. */
  ghost predicate RetriesAhead(rows: seq<ExpiredRow>, now: Instant, retryAt: ExpiredRow -> Instant) {
    forall i :: 0 <= i < |rows| ==> IsAhead(rows[i], now, retryAt)
  }

  predicate IsAhead(row: ExpiredRow, now: Instant, retryAt: ExpiredRow -> Instant) {
    now <= retryAt(row)
  }

  predicate TargetsConnection(job: Job, workspaceId: Uuid, connectionId: Uuid, accounts: set<Uuid>) {
    && job.workspaceId == Some(workspaceId)
    && job.Waiting()
    && job.jobType in {SyncConnection, SyncAccount, SyncTransactionsPage, SyncBills}
    && (job.payload.providerConnectionId == Some(connectionId)
        || (job.payload.financialAccountId.Some? && job.payload.financialAccountId.value in accounts))
  }

  function Targets(jobs: Table, workspaceId: Uuid, connectionId: Uuid, accounts: set<Uuid>): set<Uuid> {
    set id | id in jobs && TargetsConnection(jobs[id], workspaceId, connectionId, accounts)
  }

  /** The update that kills the waiting refresh jobs of a connection. */
  method KillTargets(jobs: Table, workspaceId: Uuid, connectionId: Uuid, accounts: set<Uuid>, deletedAt: Instant)
    returns (after: Table)
    ensures after == Apply(jobs, Killed(Targets(jobs, workspaceId, connectionId, accounts), deletedAt))
  {
    after := map id | id in jobs ::
      if TargetsConnection(jobs[id], workspaceId, connectionId, accounts)
      then jobs[id].(status := Dead, finishedAt := Some(deletedAt),
                     lastErrorCode := Some("CONNECTION_DELETED"),
                     lastErrorSummary := Some("Connection was deleted before refresh execution."),
                     lockedAt := None, lockedBy := None, heartbeatAt := None, leaseExpiresAt := None,
                     updatedAt := deletedAt)
      else jobs[id];
  }

  /** What the reclaim writes to one row. */
  method ReclaimRow(job: Job, now: Instant, retryAt: Instant, ghost event: Event) returns (row: Job)
    requires event.Reclaimed? && event.now == now && event.availableAt == retryAt
    ensures row == Effect(job, event)
    ensures row.status == if job.attemptCount >= job.maxAttempts then Dead else Retry
    ensures row.attemptCount == job.attemptCount
  {
    var dead := job.attemptCount >= job.maxAttempts;
    row := job.(status := if dead then Dead else Retry,
                availableAt := if dead then job.availableAt else retryAt,
                finishedAt := if dead then Some(now) else None,
                lockedAt := None, lockedBy := None, heartbeatAt := None, leaseExpiresAt := None,
                lastErrorCode := Some("LEASE_EXPIRED"),
                lastErrorSummary := Some("Worker lease expired before completion."),
                updatedAt := now);
  }

  /** The events of the queue once the first `n` rows of the batch are reclaimed. */
  ghost function Reclaiming(log: seq<Event>, rows: seq<ExpiredRow>, n: nat, now: Instant,
                            retryAt: ExpiredRow -> Instant): seq<Event>
    requires n <= |rows|
  {
    log + ReclaimEvents(rows, n, now, retryAt)
  }

  lemma OneMoreReclaim(log: seq<Event>, rows: seq<ExpiredRow>, i: nat, now: Instant, retryAt: ExpiredRow -> Instant)
    requires i < |rows|
    ensures Reclaiming(log, rows, i + 1, now, retryAt)
         == Reclaiming(log, rows, i, now, retryAt) + [Reclaimed(rows[i].id, now, retryAt(rows[i]))]
  {
    Associate(log, ReclaimEvents(rows, i, now, retryAt), [Reclaimed(rows[i].id, now, retryAt(rows[i]))]);
  }

  ghost predicate DistinctRows(rows: seq<ExpiredRow>) {
    forall i, j :: 0 <= i < j < |rows| ==> rows[i].id != rows[j].id
  }

  /** The rows from `n` on are expired leases of the table. */
  ghost predicate StillExpired(table: Table, rows: seq<ExpiredRow>, n: nat, now: Instant) {
    forall i :: n <= i < |rows| ==> rows[i].id in table && table[rows[i].id].Expired(now)
  }

  /** Row `i` of the batch, on the table that the rows before it have left. */
  method ReclaimOne(table: Table, rows: seq<ExpiredRow>, i: nat, now: Instant, retryAt: ExpiredRow -> Instant,
                    ghost log: seq<Event>)
    returns (after: Table)
    requires i < |rows| && IsAhead(rows[i], now, retryAt)
    requires Lawful(Reclaiming(log, rows, i, now, retryAt)) && table == Replay(Reclaiming(log, rows, i, now, retryAt))
    requires DistinctRows(rows) && StillExpired(table, rows, i, now)
    ensures Lawful(Reclaiming(log, rows, i + 1, now, retryAt))
            && after == Replay(Reclaiming(log, rows, i + 1, now, retryAt))
    ensures StillExpired(after, rows, i + 1, now)
  {
    ghost var event := Reclaimed(rows[i].id, now, retryAt(rows[i]));
    Extend(Reclaiming(log, rows, i, now, retryAt), event);
    OneMoreReclaim(log, rows, i, now, retryAt);
    var row := ReclaimRow(table[rows[i].id], now, retryAt(rows[i]), event);
    after := table[rows[i].id := row];
  }

  /** The loop of a reclaim, on a copy of the table that is given up when a retry time is refused. */
  method ReclaimEach(before: Table, rows: seq<ExpiredRow>, now: Instant, retryAt: ExpiredRow -> Instant,
                     ghost log: seq<Event>)
    returns (ok: bool, table: Table, reclaimed: seq<ReclaimedJob>)
    requires Lawful(log) && before == Replay(log) && DistinctRows(rows) && StillExpired(before, rows, 0, now)
    ensures ok <==> RetriesAhead(rows, now, retryAt)
    ensures ok ==> Lawful(Reclaiming(log, rows, |rows|, now, retryAt))
                   && table == Replay(Reclaiming(log, rows, |rows|, now, retryAt))
    ensures ok ==> reclaimed == ReclaimReports(rows, |rows|)
  {
    ok, table, reclaimed := true, before, [];
    assert Reclaiming(log, rows, 0, now, retryAt) == log;
    for i := 0 to |rows|
      invariant Lawful(Reclaiming(log, rows, i, now, retryAt))
                && table == Replay(Reclaiming(log, rows, i, now, retryAt))
      invariant StillExpired(table, rows, i, now)
      invariant forall k :: 0 <= k < i ==> IsAhead(rows[k], now, retryAt)
      invariant reclaimed == ReclaimReports(rows, i)
    {
      if !IsAhead(rows[i], now, retryAt) {
        return false, table, reclaimed;
      }
      table := ReclaimOne(table, rows, i, now, retryAt, log);
      reclaimed := reclaimed + [ReclaimReport(rows[i])];
    }
  }

  class JobQueue {
    var jobs: Table
    ghost var log: seq<Event>

    ghost predicate Valid()
      reads this
    {
      Lawful(log) && jobs == Replay(log)
    }

    constructor ()
      ensures Valid() && jobs == map[] && log == []
    {
      jobs, log := map[], [];
    }

    /** Appends one enabled event; `next` must be what the statement wrote. */
    ghost method Record(event: Event)
      requires Lawful(log) && Enabled(Replay(log), event)
      requires jobs == Apply(Replay(log), event)
      modifies this`log
      ensures Valid() && log == old(log) + [event]
    {
      Extend(log, event);
      log := log + [event];
    }

    /**
     Inserts the row, or hands back the active row that already carries the dedupe key.
     `freshId` is the random id, `clock` the caller's clock and `dbNow` the database's.
     */
    method Enqueue(workspaceId: Option<Uuid>, input: EnqueueInput, freshId: Uuid, clock: Instant, dbNow: Instant)
      returns (r: Result<EnqueuedJob, QueueError>)
      requires Valid()
      modifies this
      ensures Valid()
      ensures r.Err? || !r.value.created ==> jobs == old(jobs) && log == old(log)
      ensures !ValidEnqueue(workspaceId, input) <==> r == Err(InvalidArgument)
      ensures r.Ok? ==>
                var job := r.value.job;
                && r.value.id in jobs && jobs[r.value.id] == job
                && job.Active()
                && job.workspaceId == workspaceId && job.jobType == input.jobType && job.dedupeKey == input.dedupeKey
      ensures r.Ok? && r.value.created ==>
                && r.value.id == freshId
                && log == old(log) + [Enqueued(freshId, r.value.job)]
                && r.value.job.payload == input.payload
                && r.value.job.maxAttempts == input.maxAttempts
                && r.value.job.priority == (if input.priority.Some? then input.priority.value else 0)
                && r.value.job.availableAt == (if input.availableAt.Some? then input.availableAt.value else clock)
                && r.value.job.createdAt == dbNow
      ensures r.Ok? && !r.value.created ==>
                forall id :: (id in jobs && jobs[id].Active() && jobs[id].workspaceId == workspaceId
                              && jobs[id].jobType == input.jobType && jobs[id].dedupeKey == input.dedupeKey) ==>
                                   id == r.value.id
      ensures ValidEnqueue(workspaceId, input) && freshId !in old(jobs) ==> r.Ok?
    {
      if !ValidEnqueue(workspaceId, input) {
        return Err(InvalidArgument);
      }
      ReachableIsConsistent(log);
      var row := Job(workspaceId, input.jobType, input.payload, input.dedupeKey, Pending,
                     if input.priority.Some? then input.priority.value else 0,
                     if input.availableAt.Some? then input.availableAt.value else clock,
                     None, None, None, None, None, None, 0, input.maxAttempts, None, None, dbNow, dbNow);
      if freshId !in jobs && NoActiveTwin(jobs, freshId, row) {
        jobs := jobs[freshId := row];
        Record(Enqueued(freshId, row));
        return Ok(EnqueuedJob(freshId, true, row));
      }
      if input.dedupeKey.None? {
        return Err(InsertConflict);
      }
      forall id | id in jobs
        ensures jobs[id].Active() && IndexKey(jobs[id]) == IndexKey(row)
                <==> jobs[id].Active() && jobs[id].workspaceId == workspaceId
                     && jobs[id].jobType == input.jobType && jobs[id].dedupeKey == input.dedupeKey
      {
        assert !CanonicalUuid(ZERO_UUID);
        assert RowConsistent(jobs[id]);
      }
      var twins := set id | id in jobs && jobs[id].Active() && jobs[id].workspaceId == workspaceId
                            && jobs[id].jobType == input.jobType && jobs[id].dedupeKey == input.dedupeKey;
      if freshId !in jobs {
        ghost var other :| other in jobs && other != freshId && jobs[other].Active()
          && IndexKey(jobs[other]) == IndexKey(row);
        assert other in twins;
      }
      if twins == {} {
        return Err(InsertConflict);
      }
      var twin :| twin in twins;
      return Ok(EnqueuedJob(twin, false, jobs[twin]));
    }

    /** Claims the first runnable row that no other transaction holds (`skipped`), or none. */
    method Claim(worker: string, now: Instant, leaseDurationMs: int, jobTypes: Option<seq<JobType>>, skipped: set<Uuid>)
      returns (r: Result<Option<Uuid>, QueueError>)
      requires Valid()
      modifies this
      ensures Valid()
      ensures r.Err? <==> !WorkerId(worker) || jobTypes == Some([]) || !LeaseDuration(leaseDurationMs)
      ensures r.Err? || r.value.None? ==> jobs == old(jobs) && log == old(log)
      ensures r.Ok? && r.value.None? ==> forall id :: !Candidate(jobs, id, now, jobTypes, skipped)
      ensures r.Ok? && r.value.Some? ==>
                && NextCandidate(old(jobs), r.value.value, now, jobTypes, skipped)
                && log == old(log) + [Claimed(r.value.value, worker, now, now + leaseDurationMs)]
    {
      if !WorkerId(worker) || jobTypes == Some([]) || !LeaseDuration(leaseDurationMs) {
        return Err(InvalidArgument);
      }
      var expiresAt := now + leaseDurationMs;
      var candidates := set id | id in jobs && Candidate(jobs, id, now, jobTypes, skipped);
      if candidates == {} {
        assert forall id :: Candidate(jobs, id, now, jobTypes, skipped) ==> id in candidates;
        return Ok(None);
      }
      ghost var front := FrontExists(jobs, candidates);
      var id :| id in candidates && forall other :: other in candidates && other != id ==> Ahead(jobs, id, other);
      var job := jobs[id];
      jobs := jobs[id := job.(status := Running,
                              lockedAt := Some(now), lockedBy := Some(worker),
                              startedAt := if job.startedAt.Some? then job.startedAt else Some(now),
                              heartbeatAt := Some(now), leaseExpiresAt := Some(expiresAt),
                              finishedAt := None,
                              attemptCount := job.attemptCount + 1,
                              updatedAt := now)];
      Record(Claimed(id, worker, now, expiresAt));
      return Ok(Some(id));
    }

    method Heartbeat(id: Uuid, worker: string, now: Instant, leaseDurationMs: int)
      returns (r: Result<Instant, QueueError>)
      requires Valid()
      modifies this
      ensures Valid()
      ensures r == Err(InvalidArgument) <==> !WorkerId(worker) || !LeaseDuration(leaseDurationMs)
      ensures r.Err? ==> jobs == old(jobs) && log == old(log)
      ensures r == Err(LeaseLost) ==> !(id in jobs && jobs[id].HeldBy(worker, now))
      ensures r.Ok? ==>
                && id in old(jobs) && old(jobs)[id].HeldBy(worker, now)
                && log == old(log) + [Beat(id, worker, now, now + leaseDurationMs)]
                && jobs[id].leaseExpiresAt == Some(r.value)
                && now + leaseDurationMs <= r.value && old(jobs)[id].leaseExpiresAt.value <= r.value
    {
      if !WorkerId(worker) || !LeaseDuration(leaseDurationMs) {
        return Err(InvalidArgument);
      }
      if !(id in jobs && jobs[id].HeldBy(worker, now)) {
        return Err(LeaseLost);
      }
      var lease := Max(jobs[id].leaseExpiresAt.value, now + leaseDurationMs);
      jobs := jobs[id := jobs[id].(heartbeatAt := Some(now), leaseExpiresAt := Some(lease), updatedAt := now)];
      Record(Beat(id, worker, now, now + leaseDurationMs));
      return Ok(lease);
    }

    method Complete(id: Uuid, worker: string, now: Instant) returns (r: Result<(), QueueError>)
      requires Valid()
      modifies this
      ensures Valid()
      ensures r == Err(InvalidArgument) <==> !WorkerId(worker)
      ensures r.Err? ==> jobs == old(jobs) && log == old(log)
      ensures r == Err(LeaseLost) ==> !(id in jobs && jobs[id].HeldBy(worker, now))
      ensures r.Ok? ==> id in old(jobs) && old(jobs)[id].HeldBy(worker, now)
                        && log == old(log) + [Completed(id, worker, now)]
    {
      if !WorkerId(worker) {
        return Err(InvalidArgument);
      }
      if !(id in jobs && jobs[id].HeldBy(worker, now)) {
        return Err(LeaseLost);
      }
      jobs := jobs[id := jobs[id].(status := Succeeded, finishedAt := Some(now),
                                   lockedAt := None, lockedBy := None, heartbeatAt := None, leaseExpiresAt := None,
                                   updatedAt := now)];
      Record(Completed(id, worker, now));
      return Ok(());
    }

    method Fail(id: Uuid, worker: string, now: Instant, retryAt: Option<Instant>, code: string, summary: string)
      returns (r: Result<Status, QueueError>)
      requires Valid()
      modifies this
      ensures Valid()
      ensures r == Err(InvalidArgument) <==> !ValidFailure(worker, now, retryAt, code, summary)
      ensures r.Err? ==> jobs == old(jobs) && log == old(log)
      ensures r == Err(LeaseLost) ==> !(id in jobs && jobs[id].HeldBy(worker, now))
      ensures r.Ok? ==>
                && id in old(jobs) && old(jobs)[id].HeldBy(worker, now)
                && log == old(log) + [Failed(id, worker, now, retryAt, code, summary)]
                && r.value == jobs[id].status
                && (r.value == Retry <==> retryAt.Some? && old(jobs)[id].attemptCount < old(jobs)[id].maxAttempts)
                && (r.value == Retry || r.value == Dead)
    {
      if !ValidFailure(worker, now, retryAt, code, summary) {
        return Err(InvalidArgument);
      }
      if !(id in jobs && jobs[id].HeldBy(worker, now)) {
        return Err(LeaseLost);
      }
      var job := jobs[id];
      var again := retryAt.Some? && job.attemptCount < job.maxAttempts;
      jobs := jobs[id := job.(status := if again then Retry else Dead,
                              availableAt := if again then retryAt.value else job.availableAt,
                              finishedAt := if again then None else Some(now),
                              lockedAt := None, lockedBy := None, heartbeatAt := None, leaseExpiresAt := None,
                              lastErrorCode := Some(code), lastErrorSummary := Some(summary),
                              updatedAt := now)];
      Record(Failed(id, worker, now, retryAt, code, summary));
      return Ok(jobs[id].status);
    }

    /** The expired rows no other transaction holds, in lease order, at most `limit` of them. */
    method SelectExpired(now: Instant, limit: nat, skipped: set<Uuid>) returns (rows: seq<ExpiredRow>)
      ensures ExpiredSelection(jobs, now, limit, skipped, rows)
    {
      rows := [];
      var rest := ExpiredIds(jobs, now, skipped);
      while rest != {} && |rows| < limit
        invariant rest <= ExpiredIds(jobs, now, skipped)
        invariant forall id :: id in ExpiredIds(jobs, now, skipped) && id !in rest ==>
                    exists i :: 0 <= i < |rows| && rows[i].id == id
        invariant forall i :: 0 <= i < |rows| ==>
                    && rows[i].id in ExpiredIds(jobs, now, skipped)
                    && rows[i] == ExpiredRow(rows[i].id, jobs[rows[i].id].attemptCount, jobs[rows[i].id].maxAttempts)
        invariant forall i, j :: 0 <= i < j < |rows| ==> ExpiresBefore(jobs, rows[i].id, rows[j].id)
        invariant forall i, id :: 0 <= i < |rows| && id in rest ==> ExpiresBefore(jobs, rows[i].id, id)
        invariant |rows| <= limit
        decreases rest
      {
        ghost var witnessed := FirstExpiredExists(jobs, rest);
        var first :| first in rest && forall other :: other in rest && other != first ==>
            ExpiresBefore(jobs, first, other);
        ghost var before := rows;
        rows := rows + [ExpiredRow(first, jobs[first].attemptCount, jobs[first].maxAttempts)];
        assert rows[|before|].id == first;
        assert forall i :: 0 <= i < |before| ==> rows[i] == before[i];
        rest := rest - {first};
      }
    }

    /** Reclaims the selected rows in one transaction; a retry time in the past rolls all of them back. */
    method ReclaimRows(rows: seq<ExpiredRow>, now: Instant, retryAtForAttempt: Option<int -> Instant>)
      returns (r: Result<seq<ReclaimedJob>, QueueError>)
      requires Valid() && DistinctRows(rows) && StillExpired(jobs, rows, 0, now)
      modifies this
      ensures Valid()
      ensures r.Err? ==> jobs == old(jobs) && log == old(log)
      ensures r.Ok? <==> RetriesAhead(rows, now, RetryTimes(now, retryAtForAttempt))
      ensures r.Ok? ==> r.value == ReclaimReports(rows, |rows|)
      ensures r.Ok? ==> log == old(log) + ReclaimEvents(rows, |rows|, now, RetryTimes(now, retryAtForAttempt))
    {
      var ok, table, reclaimed := ReclaimEach(jobs, rows, now, RetryTimes(now, retryAtForAttempt), log);
      if !ok {
        return Err(InvalidArgument);
      }
      jobs, log := table, Reclaiming(log, rows, |rows|, now, RetryTimes(now, retryAtForAttempt));
      return Ok(reclaimed);
    }

    /**
     Sends expired leases back to RETRY, or to DEAD when no attempt is left, all or nothing.
     `rows` is the selection the transaction worked on.
     */
    method ReclaimExpired(now: Instant, limit: int, retryAtForAttempt: Option<int -> Instant>, skipped: set<Uuid>)
      returns (r: Result<seq<ReclaimedJob>, QueueError>, ghost rows: seq<ExpiredRow>)
      requires Valid()
      modifies this
      ensures Valid()
      ensures r.Err? ==> jobs == old(jobs) && log == old(log)
      ensures 1 <= limit <= 1_000 ==> ExpiredSelection(old(jobs), now, limit, skipped, rows)
      ensures r.Ok? <==> 1 <= limit <= 1_000 && RetriesAhead(rows, now, RetryTimes(now, retryAtForAttempt))
      ensures retryAtForAttempt.None? && 1 <= limit <= 1_000 ==> r.Ok?
      ensures r.Ok? ==> r.value == ReclaimReports(rows, |rows|)
                        && log == old(log) + ReclaimEvents(rows, |rows|, now, RetryTimes(now, retryAtForAttempt))
    {
      rows := [];
      if !(1 <= limit <= 1_000) {
        return Err(InvalidArgument), [];
      }
      var selected := SelectExpired(now, limit, skipped);
      rows := selected;
      assert forall i, j :: 0 <= i < j < |rows| ==> ExpiresBefore(jobs, rows[i].id, rows[j].id);
      r := ReclaimRows(selected, now, retryAtForAttempt);
    }

    /** An operator puts a dead job back, with at least one more attempt. */
    method RetryDeadLetter(workspaceId: Uuid, id: Uuid, requestedAt: Instant) returns (outcome: RetryOutcome)
      requires Valid()
      modifies this
      ensures Valid()
      ensures !outcome.RetriedJob? ==> jobs == old(jobs) && log == old(log)
      ensures outcome == NotFound <==> !(id in old(jobs) && old(jobs)[id].workspaceId == Some(workspaceId))
      ensures outcome == NotDead ==> jobs[id].status != Dead
      ensures outcome == Unsupported ==> jobs[id].status == Dead && !Retryable(jobs[id].jobType)
      ensures outcome == ActiveConflict ==>
                exists other :: other in jobs && other != id && jobs[other].Active()
                                && jobs[other].workspaceId == Some(workspaceId)
                                && jobs[other].jobType == jobs[id].jobType
                                   && jobs[other].dedupeKey == jobs[id].dedupeKey
      ensures outcome.RetriedJob? ==>
                && log == old(log) + [Retried(id, requestedAt)]
                && jobs[id] == outcome.job
    {
      if !(id in jobs && jobs[id].workspaceId == Some(workspaceId)) {
        return NotFound;
      }
      var job := jobs[id];
      if job.status != Dead {
        return NotDead;
      }
      if !Retryable(job.jobType) {
        return Unsupported;
      }
      if job.dedupeKey.Some?
         && exists other :: other in jobs && other != id && jobs[other].workspaceId == Some(workspaceId)
                            && jobs[other].jobType == job.jobType && jobs[other].dedupeKey == job.dedupeKey
                            && jobs[other].Active() {
        return ActiveConflict;
      }
      ReachableIsConsistent(log);
      forall other | other in jobs && other != id && jobs[other].Active() && job.dedupeKey.Some?
        ensures IndexKey(jobs[other]) != IndexKey(job)
      {
        IndexKeySeparatesWorkspaces(jobs[other], job);
      }
      jobs := jobs[id := job.(status := Retry, availableAt := requestedAt, finishedAt := None,
                              maxAttempts := Max(job.maxAttempts, job.attemptCount + 1),
                              lockedAt := None, lockedBy := None, heartbeatAt := None, leaseExpiresAt := None,
                              updatedAt := requestedAt)];
      Record(Retried(id, requestedAt));
      return RetriedJob(jobs[id]);
    }

    /**
     The queue step of deleting a connection: its waiting refresh jobs die, running ones are left alone.
     `found` says whether the connection row was there to be marked; without it all is rolled back.
     */
    method MarkConnectionDeleted(workspaceId: Uuid, connectionId: Uuid, found: bool, accounts: set<Uuid>,
                                 deletedAt: Instant)
      returns (ok: bool)
      requires Valid()
      modifies this
      ensures Valid() && ok == found
      ensures !ok ==> jobs == old(jobs) && log == old(log)
      ensures ok ==> log == old(log) + [Killed(Targets(old(jobs), workspaceId, connectionId, accounts), deletedAt)]
    {
      if !found {
        return false;
      }
      ghost var ids := Targets(jobs, workspaceId, connectionId, accounts);
      jobs := KillTargets(jobs, workspaceId, connectionId, accounts, deletedAt);
      Record(Killed(ids, deletedAt));
      return true;
    }
  }
}
