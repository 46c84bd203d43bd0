/**
 The `job_queue` table as an event-sourced state machine.  Every committed statement that
 changes a row is one `Event`; `Enabled` is the statement's WHERE clause together with the
 unique index, and `Apply` is its SET clause.  A run of the queue is a lawful log, and the
 table is what the log replays to.  Clocks are whatever the callers pass.
 */
module JobQueueModel {
  import opened Outcomes

  type Uuid = nat
  type Instant = int

  datatype JobType =
    | ProcessWebhook | DiscoverConnections | SyncConnection | SyncAccount | SyncTransactionsPage
    | SyncBills | NormalizeTransaction | ResolveMerchant | ClassifyTransaction
    | RebuildRecurringSeries | RebuildInstallmentSeries | RecomputeAnalyticsCache | ReprocessRawObject

  datatype Status = Pending | Running | Succeeded | Retry | Dead

  datatype Payload = Payload(providerConnectionId: Option<Uuid>, financialAccountId: Option<Uuid>)

  datatype Job = Job(
    workspaceId: Option<Uuid>,
    jobType: JobType,
    payload: Payload,
    dedupeKey: Option<string>,
    status: Status,
    priority: int,
    availableAt: Instant,
    lockedAt: Option<Instant>,
    lockedBy: Option<string>,
    startedAt: Option<Instant>,
    heartbeatAt: Option<Instant>,
    leaseExpiresAt: Option<Instant>,
    finishedAt: Option<Instant>,
    attemptCount: int,
    maxAttempts: int,
    lastErrorCode: Option<string>,
    lastErrorSummary: Option<string>,
    createdAt: Instant,
    updatedAt: Instant)
  {
    predicate Active() {
      status == Pending || status == Retry || status == Running
    }

    predicate Waiting() {
      status == Pending || status == Retry
    }

    predicate Terminal() {
      status == Succeeded || status == Dead
    }

    predicate Unlocked() {
      lockedAt.None? && lockedBy.None? && heartbeatAt.None? && leaseExpiresAt.None?
    }

    /** The guard shared by heartbeat, complete and fail. */
    predicate HeldBy(worker: string, now: Instant) {
      && status == Running
      && lockedBy == Some(worker)
      && heartbeatAt.Some? && heartbeatAt.value <= now
      && leaseExpiresAt.Some? && now < leaseExpiresAt.value
    }

    predicate Expired(now: Instant) {
      status == Running && leaseExpiresAt.Some? && leaseExpiresAt.value <= now
    }

    function Release(): Job {
      this.(lockedAt := None, lockedBy := None, heartbeatAt := None, leaseExpiresAt := None)
    }
  }

  type Table = map<Uuid, Job>

  /** Key of the partial unique index on active rows; a null workspace is coalesced to zero. */
  const ZERO_UUID: Uuid := 0

  function IndexKey(job: Job): (Uuid, JobType, Option<string>) {
    (if job.workspaceId.Some? then job.workspaceId.value else ZERO_UUID, job.jobType, job.dedupeKey)
  }

  /** Version nibble 1 to 8 and variant bits 10, as the canonical UUID pattern demands. */
  predicate CanonicalUuid(id: Uuid) {
    && id < 0x1_0000_0000_0000_0000_0000_0000_0000_0000
    && 1 <= (id / 0x1000_0000_0000_0000_0000) % 16 <= 8
    && (id / 0x4000_0000_0000_0000) % 4 == 2
  }

  predicate NoActiveTwin(jobs: Table, id: Uuid, job: Job) {
    job.dedupeKey.Some? ==>
      forall other :: other in jobs && other != id && jobs[other].Active() ==> IndexKey(jobs[other]) != IndexKey(job)
  }

  predicate Retryable(jobType: JobType) {
    jobType == ProcessWebhook || jobType == SyncConnection
  }

  predicate FreshRow(job: Job) {
    && job.status == Pending
    && job.Unlocked()
    && job.startedAt.None? && job.finishedAt.None?
    && job.attemptCount == 0
    && 1 <= job.maxAttempts <= 100
    && (job.workspaceId.Some? ==> CanonicalUuid(job.workspaceId.value))
  }

  datatype Event =
    | Enqueued(id: Uuid, job: Job)
    | Claimed(id: Uuid, worker: string, now: Instant, expiresAt: Instant)
    | Beat(id: Uuid, worker: string, now: Instant, expiresAt: Instant)
    | Completed(id: Uuid, worker: string, now: Instant)
    | Failed(id: Uuid, worker: string, now: Instant, retryAt: Option<Instant>, code: string, summary: string)
    | Reclaimed(id: Uuid, now: Instant, availableAt: Instant)
    | Retried(id: Uuid, now: Instant)
    | Killed(ids: set<Uuid>, now: Instant)

  predicate Enabled(jobs: Table, event: Event) {
    match event
    case Enqueued(id, job) => id !in jobs && FreshRow(job) && NoActiveTwin(jobs, id, job)
    case Claimed(id, worker, now, expiresAt) =>
      && id in jobs && jobs[id].Waiting()
      && jobs[id].availableAt <= now
      && jobs[id].attemptCount < jobs[id].maxAttempts
      && now < expiresAt
    case Beat(id, worker, now, expiresAt) => id in jobs && jobs[id].HeldBy(worker, now) && now < expiresAt
    case Completed(id, worker, now) => id in jobs && jobs[id].HeldBy(worker, now)
    case Failed(id, worker, now, retryAt, code, summary) => id in jobs && jobs[id].HeldBy(worker, now)
    case Reclaimed(id, now, availableAt) => id in jobs && jobs[id].Expired(now)
    case Retried(id, now) =>
      && id in jobs && jobs[id].status == Dead
      && Retryable(jobs[id].jobType)
      && NoActiveTwin(jobs, id, jobs[id])
    case Killed(ids, now) => forall id :: id in ids ==> id in jobs && jobs[id].Waiting()
  }

  function Max(a: int, b: int): int {
    if a < b then b else a
  }

  function Effect(job: Job, event: Event): Job {
    match event
    case Enqueued(_, row) => row
    case Claimed(_, worker, now, expiresAt) =>
      job.(status := Running,
           lockedAt := Some(now),
           lockedBy := Some(worker),
           startedAt := if job.startedAt.Some? then job.startedAt else Some(now),
           heartbeatAt := Some(now),
           leaseExpiresAt := Some(expiresAt),
           finishedAt := None,
           attemptCount := job.attemptCount + 1,
           updatedAt := now)
    case Beat(_, _, now, expiresAt) =>
      job.(heartbeatAt := Some(now),
           leaseExpiresAt := Some(if job.leaseExpiresAt.Some? then Max(job.leaseExpiresAt.value, expiresAt)
                                  else expiresAt),
           updatedAt := now)
    case Completed(_, _, now) =>
      job.Release().(status := Succeeded, finishedAt := Some(now), updatedAt := now)
    case Failed(_, _, now, retryAt, code, summary) =>
      var again := retryAt.Some? && job.attemptCount < job.maxAttempts;
      job.Release().(status := if again then Retry else Dead,
                     availableAt := if again then retryAt.value else job.availableAt,
                     finishedAt := if again then None else Some(now),
                     lastErrorCode := Some(code),
                     lastErrorSummary := Some(summary),
                     updatedAt := now)
    case Reclaimed(_, now, retryAt) =>
      var dead := job.attemptCount >= job.maxAttempts;
      job.Release().(status := if dead then Dead else Retry,
                     availableAt := if dead then job.availableAt else retryAt,
                     finishedAt := if dead then Some(now) else None,
                     lastErrorCode := Some("LEASE_EXPIRED"),
                     lastErrorSummary := Some("Worker lease expired before completion."),
                     updatedAt := now)
    case Retried(_, now) =>
      job.Release().(status := Retry,
                     availableAt := now,
                     finishedAt := None,
                     maxAttempts := Max(job.maxAttempts, job.attemptCount + 1),
                     updatedAt := now)
    case Killed(_, now) =>
      job.Release().(status := Dead,
                     finishedAt := Some(now),
                     lastErrorCode := Some("CONNECTION_DELETED"),
                     lastErrorSummary := Some("Connection was deleted before refresh execution."),
                     updatedAt := now)
  }

  function Apply(jobs: Table, event: Event): Table {
    match event
    case Enqueued(id, job) => jobs[id := job]
    case Killed(ids, now) => map id | id in jobs :: if id in ids then Effect(jobs[id], event) else jobs[id]
    case _ => if event.id in jobs then jobs[event.id := Effect(jobs[event.id], event)] else jobs
  }

  function Replay(log: seq<Event>): Table {
    if log == [] then map[] else Apply(Replay(log[..|log| - 1]), log[|log| - 1])
  }

  /** A run: every event was enabled in the table its predecessors left. */
  ghost predicate Lawful(log: seq<Event>) {
    log != [] ==> Lawful(log[..|log| - 1]) && Enabled(Replay(log[..|log| - 1]), log[|log| - 1])
  }

  lemma Extend(log: seq<Event>, event: Event)
    requires Lawful(log) && Enabled(Replay(log), event)
    ensures Lawful(log + [event])
    ensures Replay(log + [event]) == Apply(Replay(log), event)
  {
    assert (log + [event])[..|log|] == log;
  }

  // ---- what every reachable table satisfies ----

  ghost predicate RowConsistent(job: Job) {
    && (job.status == Running <==> job.lockedAt.Some?)
    && (job.status == Running <==> job.lockedBy.Some?)
    && (job.status == Running <==> job.heartbeatAt.Some?)
    && (job.status == Running <==> job.leaseExpiresAt.Some?)
    && (job.status == Running ==> job.startedAt.Some? && job.heartbeatAt.value < job.leaseExpiresAt.value)
    && (job.Terminal() <==> job.finishedAt.Some?)
    && (job.Waiting() ==> job.attemptCount < job.maxAttempts)
    && 0 <= job.attemptCount <= job.maxAttempts
    && 1 <= job.maxAttempts
    && (job.workspaceId.Some? ==> CanonicalUuid(job.workspaceId.value))
  }

  /** At most one active row per workspace, job type and dedupe key. */
  ghost predicate DedupeUnique(jobs: Table) {
    forall a, b :: a in jobs && b in jobs && a != b
                   && jobs[a].Active() && jobs[b].Active() && jobs[a].dedupeKey.Some? && jobs[b].dedupeKey.Some? ==>
                     (jobs[a].workspaceId, jobs[a].jobType, jobs[a].dedupeKey)
                     != (jobs[b].workspaceId, jobs[b].jobType, jobs[b].dedupeKey)
  }

  ghost predicate UniqueIndex(jobs: Table) {
    forall a, b :: a in jobs && b in jobs && a != b
                   && jobs[a].Active() && jobs[b].Active() && jobs[a].dedupeKey.Some? ==>
                     IndexKey(jobs[a]) != IndexKey(jobs[b])
  }

  ghost predicate Consistent(jobs: Table) {
    && (forall id :: id in jobs ==> RowConsistent(jobs[id]))
    && DedupeUnique(jobs)
  }

  /** The zero UUID is no canonical workspace id, so coalescing null merges no two workspaces. */
  lemma IndexKeySeparatesWorkspaces(a: Job, b: Job)
    requires RowConsistent(a) && RowConsistent(b)
    ensures IndexKey(a) == IndexKey(b) <==>
            (a.workspaceId, a.jobType, a.dedupeKey) == (b.workspaceId, b.jobType, b.dedupeKey)
  {
    assert !CanonicalUuid(ZERO_UUID);
  }

  lemma EventKeepsRows(jobs: Table, event: Event)
    requires forall id :: id in jobs ==> RowConsistent(jobs[id])
    requires Enabled(jobs, event)
    ensures forall id :: id in Apply(jobs, event) ==> RowConsistent(Apply(jobs, event)[id])
  {
  }

  /** No event moves a row to another index key, and only the operator retry revives a row. */
  lemma EventKeepsKey(jobs: Table, event: Event, id: Uuid)
    requires Enabled(jobs, event) && id in jobs
    ensures id in Apply(jobs, event)
    ensures IndexKey(Apply(jobs, event)[id]) == IndexKey(jobs[id])
    ensures Apply(jobs, event)[id].Active() ==> jobs[id].Active() || (event.Retried? && event.id == id)
  {
  }

  lemma EventKeepsIndex(jobs: Table, event: Event, a: Uuid, b: Uuid)
    requires UniqueIndex(jobs) && Enabled(jobs, event)
    requires a in Apply(jobs, event) && b in Apply(jobs, event) && a != b
    requires Apply(jobs, event)[a].Active() && Apply(jobs, event)[b].Active()
    requires Apply(jobs, event)[a].dedupeKey.Some?
    ensures IndexKey(Apply(jobs, event)[a]) != IndexKey(Apply(jobs, event)[b])
  {
    if a in jobs {
      EventKeepsKey(jobs, event, a);
    }
    if b in jobs {
      EventKeepsKey(jobs, event, b);
    }
  }

  /** Every reachable table is consistent, whatever the interleaving and the clocks. */
  lemma {:induction false} ReachableIsConsistent(log: seq<Event>)
    requires Lawful(log)
    ensures Consistent(Replay(log))
  {
    ReachableHasUniqueIndex(log);
    ReachableRowsConsistent(log);
  }

  lemma {:induction false} ReachableRowsConsistent(log: seq<Event>)
    requires Lawful(log)
    ensures forall id :: id in Replay(log) ==> RowConsistent(Replay(log)[id])
  {
    if log != [] {
      ReachableRowsConsistent(log[..|log| - 1]);
      EventKeepsRows(Replay(log[..|log| - 1]), log[|log| - 1]);
    }
  }

  lemma {:induction false} ReachableHasUniqueIndex(log: seq<Event>)
    requires Lawful(log)
    ensures UniqueIndex(Replay(log))
  {
    if log != [] {
      var jobs, event := Replay(log[..|log| - 1]), log[|log| - 1];
      ReachableHasUniqueIndex(log[..|log| - 1]);
      forall a, b | a in Replay(log) && b in Replay(log) && a != b
                    && Replay(log)[a].Active() && Replay(log)[b].Active() && Replay(log)[a].dedupeKey.Some?
        ensures IndexKey(Replay(log)[a]) != IndexKey(Replay(log)[b])
      {
        EventKeepsIndex(jobs, event, a, b);
      }
    }
  }

  // ---- what a run adds up to ----

  predicate Concerns(event: Event, id: Uuid) {
    match event
    case Killed(ids, _) => id in ids
    case _ => event.id == id
  }

  predicate Claiming(event: Event, id: Uuid) {
    event.Claimed? && event.id == id
  }

  predicate Disposing(event: Event, id: Uuid) {
    (event.Completed? || event.Failed? || event.Reclaimed?) && event.id == id
  }

  function Claims(log: seq<Event>, id: Uuid): nat {
    if log == [] then 0
    else Claims(log[..|log| - 1], id)
         + if Claiming(log[|log| - 1], id) then 1 else 0
  }

  function Dispositions(log: seq<Event>, id: Uuid): nat {
    if log == [] then 0
    else Dispositions(log[..|log| - 1], id)
         + if Disposing(log[|log| - 1], id) then 1 else 0
  }

  function OperatorRetries(log: seq<Event>, id: Uuid): nat {
    if log == [] then 0
    else OperatorRetries(log[..|log| - 1], id)
         + if log[|log| - 1].Retried? && Concerns(log[|log| - 1], id) then 1 else 0
  }

  /** The attempt budget a job was enqueued with. */
  function EnqueuedBudget(log: seq<Event>, id: Uuid): int {
    if log == [] then 0
    else if log[|log| - 1].Enqueued? && Concerns(log[|log| - 1], id) then log[|log| - 1].job.maxAttempts
    else EnqueuedBudget(log[..|log| - 1], id)
  }

  function Attempts(jobs: Table, id: Uuid): int {
    if id in jobs then jobs[id].attemptCount else 0
  }

  function RunningBit(jobs: Table, id: Uuid): int {
    if id in jobs && jobs[id].status == Running then 1 else 0
  }

  lemma AttemptStep(jobs: Table, event: Event, id: Uuid)
    requires Enabled(jobs, event)
    ensures id in Apply(jobs, event) <==> id in jobs || (event.Enqueued? && event.id == id)
    ensures Attempts(Apply(jobs, event), id) == Attempts(jobs, id) + if Claiming(event, id) then 1 else 0
    ensures RunningBit(Apply(jobs, event), id)
            == RunningBit(jobs, id) + (if Claiming(event, id) then 1 else 0) - (if Disposing(event, id) then 1 else 0)
    ensures event.Retried? && event.id == id ==> id in jobs
  {
  }

  /** The attempt counter is the number of claims, and claims and dispositions alternate. */
  lemma {:induction false} AttemptsAreClaims(log: seq<Event>, id: Uuid)
    requires Lawful(log)
    ensures id !in Replay(log) ==> OperatorRetries(log, id) == 0
    ensures Attempts(Replay(log), id) == Claims(log, id)
    ensures Claims(log, id) == Dispositions(log, id) + RunningBit(Replay(log), id)
  {
    if log != [] {
      AttemptsAreClaims(log[..|log| - 1], id);
      AttemptStep(Replay(log[..|log| - 1]), log[|log| - 1], id);
    }
  }

  lemma {:induction false} ClaimsGrow(log: seq<Event>, id: Uuid, i: nat)
    requires i <= |log|
    ensures Claims(log[..i], id) <= Claims(log, id) && Dispositions(log[..i], id) <= Dispositions(log, id)
    ensures (forall k :: i <= k < |log| ==> !Claiming(log[k], id)) ==> Claims(log[..i], id) == Claims(log, id)
    decreases |log|
  {
    if i < |log| {
      var front := log[..|log| - 1];
      ClaimsGrow(front, id, i);
      assert front[..i] == log[..i];
      assert forall k :: 0 <= k < |front| ==> front[k] == log[k];
    } else {
      assert log[..i] == log;
    }
  }

  /** A disposition evens out the claims and dispositions up to it. */
  lemma DispositionEvens(log: seq<Event>, id: Uuid)
    requires Lawful(log) && log != [] && Disposing(log[|log| - 1], id)
    ensures Claims(log, id) == Dispositions(log, id)
    ensures Claims(log[..|log| - 1], id) == Dispositions(log[..|log| - 1], id) + 1
  {
    AttemptsAreClaims(log, id);
    AttemptsAreClaims(log[..|log| - 1], id);
  }

  /**
   Whatever the clients do: between two dispositions of a job lies a claim of it, so no claim is disposed of
   twice.
   */
  lemma DispositionsAreClaimedApart(log: seq<Event>, id: Uuid, i: nat, j: nat) returns (claim: nat)
    requires Lawful(log) && i < j < |log| && Disposing(log[i], id) && Disposing(log[j], id)
    ensures i < claim < j && Claiming(log[claim], id)
  {
    LawfulPrefix(log, i + 1);
    LawfulPrefix(log, j + 1);
    DispositionEvens(log[..i + 1], id);
    DispositionEvens(log[..j + 1], id);
    assert log[..j + 1][..j] == log[..j];
    claim := ClaimBetween(log, id, i + 1, j);
  }

  /** Where claims outnumber those of a prefix whose claims are all disposed of, there is a later claim. */
  lemma ClaimBetween(log: seq<Event>, id: Uuid, i: nat, j: nat) returns (claim: nat)
    requires i <= j < |log| && Claims(log[..i], id) == Dispositions(log[..i], id)
    requires Claims(log[..j], id) == Dispositions(log[..j], id) + 1
    ensures i <= claim < j && Claiming(log[claim], id)
  {
    ClaimsGrow(log[..j], id, i);
    assert log[..j][..i] == log[..i];
    assert forall k :: i <= k < j ==> log[..j][k] == log[k];
    claim :| i <= claim < j && Claiming(log[claim], id);
  }

  lemma {:induction false} LawfulPrefix(log: seq<Event>, n: nat)
    requires Lawful(log) && n <= |log|
    ensures Lawful(log[..n])
    decreases |log|
  {
    if n < |log| {
      LawfulPrefix(log[..|log| - 1], n);
      assert log[..|log| - 1][..n] == log[..n];
    } else {
      assert log[..n] == log;
    }
  }

  lemma BudgetStep(job: Job, event: Event)
    requires RowConsistent(job) && !event.Enqueued?
    ensures Effect(job, event).maxAttempts <= job.maxAttempts + if event.Retried? then 1 else 0
  {
  }

  lemma {:induction false} BudgetGrowsOnlyByRetries(log: seq<Event>, id: Uuid)
    requires Lawful(log)
    ensures id in Replay(log) ==> Replay(log)[id].maxAttempts <= EnqueuedBudget(log, id) + OperatorRetries(log, id)
  {
    if log != [] {
      var before, last := log[..|log| - 1], log[|log| - 1];
      BudgetGrowsOnlyByRetries(before, id);
      AttemptsAreClaims(before, id);
      if id in Replay(before) && Concerns(last, id) {
        assert RowConsistent(Replay(before)[id]) by {
          ReachableIsConsistent(before);
        }
        BudgetStep(Replay(before)[id], last);
      }
    }
  }

  /** A job is claimed at most as often as it was enqueued for, plus once per operator retry. */
  lemma ClaimsWithinBudget(log: seq<Event>, id: Uuid)
    requires Lawful(log)
    ensures id in Replay(log) ==> Claims(log, id) <= EnqueuedBudget(log, id) + OperatorRetries(log, id)
  {
    AttemptsAreClaims(log, id);
    BudgetGrowsOnlyByRetries(log, id);
    ReachableIsConsistent(log);
  }

  /** `claim` is the position of the latest claim of the job, by `worker`, and nothing disposed of it since. */
  ghost predicate OwnsSince(log: seq<Event>, id: Uuid, worker: string, claim: nat) {
    && claim < |log|
    && log[claim].Claimed? && log[claim].id == id && log[claim].worker == worker
    && forall k :: claim < k < |log| && Concerns(log[k], id) ==> log[k].Beat? && log[k].worker == worker
  }

  lemma {:induction false} RunningHasOwner(log: seq<Event>, id: Uuid) returns (claim: nat)
    requires Lawful(log)
    requires id in Replay(log) && Replay(log)[id].status == Running
    ensures Replay(log)[id].lockedBy.Some?
    ensures OwnsSince(log, id, Replay(log)[id].lockedBy.value, claim)
  {
    var before, last := log[..|log| - 1], log[|log| - 1];
    ReachableIsConsistent(log);
    if last.Claimed? && last.id == id {
      claim := |log| - 1;
    } else {
      claim := RunningHasOwner(before, id);
      forall k | claim < k < |log| && Concerns(log[k], id)
        ensures log[k].Beat? && log[k].worker == Replay(log)[id].lockedBy.value
      {
        if k < |log| - 1 {
          assert log[k] == before[k];
        }
      }
    }
  }

  /**
   A heartbeat, completion or failure by a worker goes through only if that worker made the
   latest claim and the job was neither disposed of, retried nor killed since.
   */
  lemma OnlyTheLatestClaimantActs(log: seq<Event>, event: Event) returns (claim: nat)
    requires Lawful(log) && Enabled(Replay(log), event)
    requires event.Beat? || event.Completed? || event.Failed?
    ensures OwnsSince(log, event.id, event.worker, claim)
  {
    claim := RunningHasOwner(log, event.id);
  }

  /**
   At any instant a held job is its owner's to act on, the reclaimer's to take, or neither's: the
   owner's from its last heartbeat until the lease expires, the reclaimer's from then on, and nobody's
   at an instant before that heartbeat.
   */
  lemma LeaseExclusion(log: seq<Event>, id: Uuid, worker: string, now: Instant, retryAt: Instant)
    requires Lawful(log)
    requires id in Replay(log) && Replay(log)[id].lockedBy == Some(worker)
    ensures Replay(log)[id].heartbeatAt.Some? && Replay(log)[id].leaseExpiresAt.Some?
    ensures var heartbeat, expiry := Replay(log)[id].heartbeatAt.value, Replay(log)[id].leaseExpiresAt.value;
            && heartbeat < expiry
            && (Enabled(Replay(log), Completed(id, worker, now)) <==> heartbeat <= now < expiry)
            && (Enabled(Replay(log), Reclaimed(id, now, retryAt)) <==> expiry <= now)
  {
    ReachableIsConsistent(log);
  }

  /** A finished job stays finished until an operator retries it. */
  lemma TerminalUntilRetried(log: seq<Event>, event: Event, id: Uuid)
    requires Lawful(log + [event])
    requires id in Replay(log) && Replay(log)[id].Terminal()
    ensures Replay(log + [event])[id] == Replay(log)[id] || event == Retried(id, event.now)
  {
    assert (log + [event])[..|log|] == log;
  }
}
