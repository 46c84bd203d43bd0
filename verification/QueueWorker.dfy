/**
 The client side of the lease protocol: one task per claim, a heartbeat loop beside the
 handler, and one disposition at the end.  What the queue answers, how often the heartbeat
 timer fires, which tasks finish during an await and what the random source returns are
 parameters, so every interleaving with other workers is covered.
 */
module QueueWorker {
  import opened Outcomes
  import opened JobQueueModel
  import opened JobQueueRepository

  datatype BeatAnswer = Renewed | LeaseGone | BeatError

  datatype HandlerOutcome =
    | Returned
    | ThrewFailure(code: string, summary: string, retryable: bool)
    | ThrewOther

  datatype Call =
    | HeartbeatCall
    | CompleteCall(now: Instant)
    | FailCall(now: Instant, retryAt: Option<Instant>, code: string, summary: string)

  datatype Random = NotFinite | Finite(value: real)

  predicate IsDisposition(call: Call) {
    call.CompleteCall? || call.FailCall?
  }

  /** Math.round of a non-negative value. */
  function Round(x: real): int {
    (x + 0.5).Floor
  }

  /** The jittered exponential back-off of a failed attempt: within a quarter of the back-off, and in 1 s to 300 s. */
  function RetryAt(now: Instant, attemptCount: int, random: Random): (retryAt: Instant)
    ensures now + MIN_LEASE_MS <= retryAt <= now + MAX_BACKOFF_MS
    ensures 4 * (retryAt - now) >= 3 * BackoffMs(attemptCount) - 4
    ensures retryAt - now > MIN_LEASE_MS ==> 4 * (retryAt - now) <= 5 * BackoffMs(attemptCount) + 4
  {
    var jittered := Max(MIN_LEASE_MS, Jittered(BackoffMs(attemptCount), Bounded(random)));
    now + if jittered < MAX_BACKOFF_MS then jittered else MAX_BACKOFF_MS
  }

  function Bounded(random: Random): (r: real)
    ensures 0.0 <= r <= 1.0
  {
    match random
    case NotFinite => 0.5
    case Finite(value) => if value < 0.0 then 0.0 else if value > 1.0 then 1.0 else value
  }

  function Jittered(backoffMs: int, bounded: real): (ms: int)
    requires 0 <= backoffMs && 0.0 <= bounded <= 1.0
    ensures 3 * backoffMs - 4 <= 4 * ms <= 5 * backoffMs + 4
  {
    var exact := backoffMs as real * (0.75 + bounded * 0.5);
    assert 0.75 * (backoffMs as real) <= exact <= 1.25 * (backoffMs as real) by {
      JitterBounds(backoffMs as real, bounded);
    }
    var ms := Round(exact);
    assert ms as real <= exact + 0.5 < ms as real + 1.0;
    assert (4 * ms) as real <= (5 * backoffMs + 4) as real;
    assert (3 * backoffMs - 4) as real <= (4 * ms) as real;
    ms
  }

  lemma JitterBounds(backoff: real, bounded: real)
    requires 0.0 <= backoff && 0.0 <= bounded <= 1.0
    ensures 0.75 * backoff <= backoff * (0.75 + bounded * 0.5) <= 1.25 * backoff
  {
    var extra := bounded * 0.5;
    assert 0.0 <= backoff * extra <= backoff * 0.5;
    assert backoff * (0.75 + extra) == backoff * 0.75 + backoff * extra;
  }

  /** Position of the first answer that says the lease is gone, or the number of answers. */
  function FirstLost(answers: seq<BeatAnswer>): (k: nat)
    ensures k <= |answers|
    ensures forall i :: 0 <= i < k ==> answers[i] != LeaseGone
    ensures k < |answers| ==> answers[k] == LeaseGone
  {
    if answers == [] || answers[0] == LeaseGone then 0 else 1 + FirstLost(answers[1..])
  }

  /**
   Processes one claim.  `answers` are the heartbeats that fired before the handler settled.
   The lease is never touched again once it is known to be lost; otherwise exactly one
   disposition is sent, last, and it matches how the handler ended.
   */
  method Process(attemptCount: int, answers: seq<BeatAnswer>, outcome: HandlerOutcome, now: Instant, random: Random)
    returns (calls: seq<Call>)
    ensures FirstLost(answers) < |answers| ==> calls == seq(FirstLost(answers) + 1, _ => HeartbeatCall)
    ensures FirstLost(answers) == |answers| ==>
              && |calls| == |answers| + 1
              && (forall i :: 0 <= i < |answers| ==> calls[i] == HeartbeatCall)
              && IsDisposition(calls[|answers|])
              && (calls[|answers|].CompleteCall? <==> outcome.Returned?)
              && calls[|answers|].now == now
              && (outcome.ThrewFailure? ==>
                    && calls[|answers|].code == outcome.code && calls[|answers|].summary == outcome.summary
                    && (calls[|answers|].retryAt.Some? <==> outcome.retryable)
                    && (outcome.retryable ==>
                          now + 1_000 <= calls[|answers|].retryAt.value <= now + 300_000))
              && (outcome.ThrewOther? ==>
                    calls[|answers|].retryAt.None? && calls[|answers|].code == "UNEXPECTED_HANDLER_ERROR")
  {
    calls := [];
    var leaseLost := false;
    var i := 0;
    while i < |answers| && !leaseLost
      invariant 0 <= i <= |answers|
      invariant |calls| == i && forall k :: 0 <= k < i ==> calls[k] == HeartbeatCall
      invariant !leaseLost ==> i <= FirstLost(answers)
      invariant leaseLost ==> i == FirstLost(answers) + 1 && FirstLost(answers) < |answers|
    {
      calls := calls + [HeartbeatCall];
      if answers[i] == LeaseGone {
        leaseLost := true;
      }
      i := i + 1;
    }
    if leaseLost {
      return;
    }
    match outcome
    case Returned =>
      calls := calls + [CompleteCall(now)];
    case ThrewFailure(code, summary, retryable) =>
      var retryAt := if retryable then Some(RetryAt(now, attemptCount, random)) else None;
      calls := calls + [FailCall(now, retryAt, code, summary)];
    case ThrewOther =>
      calls := calls + [FailCall(now, None, "UNEXPECTED_HANDLER_ERROR", "Job handler failed unexpectedly.")];
  }

  /** A retry the worker asks for always passes the queue's own check. */
  lemma WorkerRetriesAreValid(worker: string, now: Instant, attemptCount: int, random: Random, code: string,
                              summary: string)
    requires ValidFailure(worker, now, None, code, summary)
    ensures ValidFailure(worker, now, Some(RetryAt(now, attemptCount, random)), code, summary)
  {
  }

  datatype ClaimAnswer = ClaimedJob | NothingToClaim | ClaimError

  /** What happens while one claim is awaited: its answer, which tasks settle and whether a stop is requested. */
  datatype Await = Await(answer: ClaimAnswer, settled: set<nat>, stop: bool)

  function Hits(awaits: seq<Await>): nat {
    if awaits == [] then 0
    else Hits(awaits[..|awaits| - 1]) + if awaits[|awaits| - 1].answer == ClaimedJob then 1 else 0
  }

  predicate StopSeen(awaits: seq<Await>) {
    awaits != [] && (StopSeen(awaits[..|awaits| - 1]) || awaits[|awaits| - 1].stop)
  }

  /**
   One lap of the outer loop: whether a stop is requested during its reclaim, its claims, and what happens
   if it waits afterwards.
   */
  datatype Lap = Lap(early: bool, awaits: seq<Await>, settled: set<nat>, stop: bool)

  predicate WithinLaps(laps: seq<Lap>, used: seq<nat>) {
    |used| <= |laps| && forall i :: 0 <= i < |used| ==> used[i] <= |laps[i].awaits|
  }

  /** No stop was requested in lap `i` while it reclaimed, claimed, or waited because it had claimed nothing. */
  predicate GoesOn(lap: Lap, used: nat)
    requires used <= |lap.awaits|
  {
    !lap.early && !StopSeen(lap.awaits[..used]) && (lap.stop ==> Hits(lap.awaits[..used]) > 0)
  }

  /** Only the last lap met a stop, and one that met it before claiming sent no claim. */
  predicate NoneAfterStop(laps: seq<Lap>, used: seq<nat>)
    requires WithinLaps(laps, used)
  {
    used == [] ||
    var n := |used| - 1;
    && NoneAfterStop(laps, used[..n])
    && (laps[n].early ==> used[n] == 0)
    && (n > 0 ==> GoesOn(laps[n - 1], used[n - 1]))
  }

  /** Every lap but the last went on without a stop. */
  lemma {:induction false} EarlierLapsMetNoStop(laps: seq<Lap>, used: seq<nat>, i: nat)
    requires WithinLaps(laps, used) && NoneAfterStop(laps, used) && i < |used| - 1
    ensures GoesOn(laps[i], used[i])
    decreases |used|
  {
    if i < |used| - 2 {
      EarlierLapsMetNoStop(laps, used[..|used| - 1], i);
    }
  }

  /** The successful claims of the laps taken. */
  function ClaimedIn(laps: seq<Lap>, used: seq<nat>): nat
    requires WithinLaps(laps, used)
  {
    if used == [] then 0
    else
      var n := |used| - 1;
      ClaimedIn(laps, used[..n]) + Hits(laps[n].awaits[..used[n]])
  }

  lemma LapsGoOn(laps: seq<Lap>, used: seq<nat>, sent: nat)
    requires WithinLaps(laps, used) && |used| < |laps| && sent <= |laps[|used|].awaits| && NoneAfterStop(laps, used)
    requires used != [] ==> GoesOn(laps[|used| - 1], used[|used| - 1])
    requires laps[|used|].early ==> sent == 0
    ensures WithinLaps(laps, used + [sent]) && NoneAfterStop(laps, used + [sent])
    ensures ClaimedIn(laps, used + [sent]) == ClaimedIn(laps, used) + Hits(laps[|used|].awaits[..sent])
  {
    assert (used + [sent])[..|used|] == used;
  }

  class PersistentQueueWorker {
    const concurrency: nat
    var inFlight: set<nat>
    var nextTask: nat
    var started: bool
    var stopRequested: bool

    ghost predicate Valid()
      reads this
    {
      && 1 <= concurrency <= 64
      && |inFlight| <= concurrency
      && forall task :: task in inFlight ==> task < nextTask
    }

    constructor (concurrency: nat)
      requires 1 <= concurrency <= 64
      ensures Valid() && this.concurrency == concurrency && inFlight == {} && nextTask == 0 && !started
              && !stopRequested
    {
      this.concurrency := concurrency;
      inFlight, nextTask, started, stopRequested := {}, 0, false, false;
    }

    /**
     Claims until the capacity is full, the queue is empty or a stop was requested; `used` is
     how many claims were sent.  Capacity is never exceeded, no claim follows a stop, and
     every claimed job became exactly one task.
     */
    method FillCapacity(awaits: seq<Await>) returns (claimed: bool, used: nat)
      requires Valid()
      modifies this`inFlight, this`nextTask, this`stopRequested
      ensures Valid()
      ensures used <= |awaits|
      ensures nextTask == old(nextTask) + Hits(awaits[..used])
      ensures claimed <==> Hits(awaits[..used]) > 0
      ensures stopRequested <==> old(stopRequested) || StopSeen(awaits[..used])
      ensures old(stopRequested) ==> used == 0
      ensures used > 0 ==> !StopSeen(awaits[..used - 1]) && Hits(awaits[..used - 1]) == used - 1
      ensures used == |awaits| || stopRequested || |inFlight| == concurrency
              || (used > 0 && awaits[used - 1].answer != ClaimedJob)
    {
      claimed, used := false, 0;
      while used < |awaits| && !stopRequested && |inFlight| < concurrency
        invariant Valid()
        invariant used <= |awaits|
        invariant Hits(awaits[..used]) == used
        invariant used > 0 ==> !StopSeen(awaits[..used - 1]) && Hits(awaits[..used - 1]) == used - 1
        invariant claimed <==> used > 0
        invariant nextTask == old(nextTask) + used
        invariant stopRequested <==> old(stopRequested) || StopSeen(awaits[..used])
        invariant old(stopRequested) ==> used == 0
      {
        var step := awaits[used];
        assert awaits[..used + 1][..used] == awaits[..used];
        used := used + 1;
        Settle(step.settled);
        stopRequested := stopRequested || step.stop;
        if step.answer != ClaimedJob {
          return;
        }
        claimed := true;
        inFlight := inFlight + {nextTask};
        nextTask := nextTask + 1;
      }
    }

    /**
     run: only the first call does anything.  It claims lap after lap until a stop is requested, waits
     when the capacity is full or nothing was claimed, and at the end waits for whatever is in flight; `used` is
     how many claims each lap sent.  The script of laps may also end without a stop.
     */
    method Run(laps: seq<Lap>) returns (ok: bool, used: seq<nat>)
      requires Valid()
      modifies this`started, this`inFlight, this`nextTask, this`stopRequested
      ensures Valid() && started && ok == !old(started)
      ensures !ok ==> inFlight == old(inFlight) && nextTask == old(nextTask) && stopRequested == old(stopRequested)
      ensures ok ==> inFlight == {} && WithinLaps(laps, used)
      ensures ok ==> nextTask == old(nextTask) + ClaimedIn(laps, used)
      ensures ok && |used| < |laps| ==> stopRequested
      ensures ok ==> NoneAfterStop(laps, used)
      ensures old(stopRequested) && ok ==> used == []
    {
      used := [];
      if started {
        return false, used;
      }
      ok, started := true, true;
      while |used| < |laps| && !stopRequested
        invariant Valid() && started && WithinLaps(laps, used)
        invariant nextTask == old(nextTask) + ClaimedIn(laps, used)
        invariant NoneAfterStop(laps, used)
        invariant used != [] && !stopRequested ==> GoesOn(laps[|used| - 1], used[|used| - 1])
        invariant old(stopRequested) ==> used == [] && stopRequested
        decreases |laps| - |used|
      {
        var sent := Turn(laps[|used|]);
        LapsGoOn(laps, used, sent);
        used := used + [sent];
      }
      inFlight := {};
    }

    /** One lap: the reclaim, the claims, and the wait for a task or for the poll interval. */
    method Turn(lap: Lap) returns (sent: nat)
      requires Valid() && !stopRequested
      modifies this`inFlight, this`nextTask, this`stopRequested
      ensures Valid() && sent <= |lap.awaits|
      ensures nextTask == old(nextTask) + Hits(lap.awaits[..sent])
      ensures lap.early ==> sent == 0
      ensures !stopRequested ==> GoesOn(lap, sent)
    {
      stopRequested := lap.early;
      var claimed;
      claimed, sent := FillCapacity(lap.awaits);
      if !stopRequested && (|inFlight| >= concurrency || !claimed) {
        Settle(lap.settled);
        stopRequested := lap.stop;
      }
    }

    /** Tasks that settled leave the in-flight set. */
    method Settle(settled: set<nat>)
      requires Valid()
      modifies this`inFlight
      ensures Valid() && inFlight == old(inFlight) - settled && |inFlight| <= |old(inFlight)|
    {
      SubsetIsSmaller(inFlight - settled, inFlight);
      inFlight := inFlight - settled;
    }
  }

  lemma {:induction false} SubsetIsSmaller(a: set<nat>, b: set<nat>)
    requires a <= b
    ensures |a| <= |b|
  {
    if a != {} {
      var x :| x in a;
      SubsetIsSmaller(a - {x}, b - {x});
    }
  }
}
