/**
 Draining a provider's cursor chains into storage.  The provider and the storage are a script that
 answers each call from the whole history, so nothing is assumed about either.
 */
module CursorTraversal {
  import opened Outcomes
  import opened Sequences

  type Cursor = string

  /** One page as the provider returned it. */
  datatype Page = Page(items: nat, next: Option<Cursor>)

  datatype Call =
    | SyncStarted
    | Requested(account: nat, cursor: Option<Cursor>)
    | Persisted(account: nat, page: Page)
    | AccountCompleted(account: nat)
    | RowsDeleted(account: nat)
    | SyncCompleted
    | SyncFailed
    | ReplacementsDetected

  datatype Answer = Failure | Fetched(page: Page) | Done

  /** The answer to the last call of a history; `aborted` is the abort signal at that moment. */
  datatype Script = Script(answer: seq<Call> -> Answer, aborted: seq<Call> -> bool)

  predicate Succeeds(script: Script, history: seq<Call>) {
    !script.answer(history).Failure?
  }

  // ---- the shape of a chain ----

  /** The cursor after the given pages. */
  function CursorAfter(initial: Option<Cursor>, pages: seq<Page>): Option<Cursor> {
    if pages == [] then initial else pages[|pages| - 1].next
  }

  /** Each page requested at the cursor before it, and then persisted. */
  function Calls(account: nat, initial: Option<Cursor>, pages: seq<Page>): (calls: seq<Call>)
    ensures |calls| == 2 * |pages|
  {
    if pages == [] then []
    else
      var front := pages[..|pages| - 1];
      Calls(account, initial, front)
        + [Requested(account, CursorAfter(initial, front)), Persisted(account, pages[|pages| - 1])]
  }

  /** The cursor of the request for page `i`. */
  function CursorOf(initial: Option<Cursor>, pages: seq<Page>, i: nat): Option<Cursor>
    requires i <= |pages|
  {
    if i == 0 then initial else pages[i - 1].next
  }

  /** Every page leads on to another cursor, and no cursor is used twice. */
  predicate Leads(initial: Option<Cursor>, pages: seq<Page>) {
    && (forall i :: 0 <= i < |pages| ==> pages[i].next.Some?)
    && forall i, j :: 0 <= i < j <= |pages| ==> CursorOf(initial, pages, i) != CursorOf(initial, pages, j)
  }

  /** Every page was what the provider answered to its request. */
  predicate Answered(script: Script, history: seq<Call>, account: nat, initial: Option<Cursor>, pages: seq<Page>) {
    pages == [] ||
    var front := pages[..|pages| - 1];
    && Answered(script, history, account, initial, front)
    && script.answer(history + Calls(account, initial, front) + [Requested(account, CursorAfter(initial, front))])
       == Fetched(pages[|pages| - 1])
  }

  /** A chain stops on its last page, or with the calls of an unfinished one. */
  datatype Stop = Ended(last: Page) | Unfinished(tail: seq<Call>)

  function StopCalls(account: nat, cursor: Option<Cursor>, stop: Stop): seq<Call> {
    match stop
    case Ended(last) => [Requested(account, cursor), Persisted(account, last)]
    case Unfinished(tail) => tail
  }

  /**
   Why a chain stopped short: at the page limit or on an abort before a request; on a failed request, or on
   a page whose next cursor was requested before, which is not persisted; or on a page that could not be persisted.
   */
  predicate StoppedFor(script: Script, history: seq<Call>, account: nat, cursor: Option<Cursor>, used: set<Cursor>,
                       atLimit: bool, abortable: bool, tail: seq<Call>) {
    var asked := history + [Requested(account, cursor)];
    if tail == [] then atLimit || (abortable && script.aborted(history))
    else
      && !atLimit && tail[0] == Requested(account, cursor)
      && if |tail| == 1 then !script.answer(asked).Fetched? || Repeats(script.answer(asked).page, used)
         else
           && |tail| == 2 && script.answer(asked).Fetched? && !Repeats(script.answer(asked).page, used)
           && tail[1] == Persisted(account, script.answer(asked).page)
           && script.answer(history + tail).Failure?
  }

  predicate Repeats(page: Page, used: set<Cursor>) {
    page.next.Some? && page.next.value in used
  }

  /** What one traversal of an account did. */
  ghost predicate Traversed(script: Script, history: seq<Call>, account: nat, initial: Option<Cursor>, limit: nat,
                            abortable: bool,
                            pages: seq<Page>, stop: Stop) {
    var before, cursor := history + Calls(account, initial, pages), CursorAfter(initial, pages);
    && |pages| <= limit && Leads(initial, pages) && Answered(script, history, account, initial, pages)
    && match stop
       case Ended(last) =>
         && |pages| < limit && last.next.None? && script.answer(before + [Requested(account, cursor)]) == Fetched(last)
       case Unfinished(tail) =>
         StoppedFor(script, before, account, cursor, Used(initial, pages, |pages| + 1), |pages| == limit, abortable,
                    tail)
  }

  // ---- what the shape says ----

  lemma {:induction false} CallsByPosition(account: nat, initial: Option<Cursor>, pages: seq<Page>, i: nat)
    requires i < |pages|
    ensures Calls(account, initial, pages)[2 * i] == Requested(account, CursorOf(initial, pages, i))
    ensures Calls(account, initial, pages)[2 * i + 1] == Persisted(account, pages[i])
    decreases |pages|
  {
    if i < |pages| - 1 {
      CallsByPosition(account, initial, pages[..|pages| - 1], i);
    }
  }

  /** No cursor is requested twice: two requests of one traversal are at different cursors. */
  lemma NoCursorTwice(script: Script, history: seq<Call>, account: nat, initial: Option<Cursor>, limit: nat,
                      abortable: bool,
                      pages: seq<Page>, stop: Stop, i: nat, j: nat)
    requires Traversed(script, history, account, initial, limit, abortable, pages, stop)
    requires var calls := Calls(account, initial, pages) + StopCalls(account, CursorAfter(initial, pages), stop);
             i < j < |calls| && calls[i].Requested? && calls[j].Requested?
    ensures var calls := Calls(account, initial, pages) + StopCalls(account, CursorAfter(initial, pages), stop);
            calls[i].cursor != calls[j].cursor
  {
    RequestPosition(script, history, account, initial, limit, abortable, pages, stop, i);
    RequestPosition(script, history, account, initial, limit, abortable, pages, stop, j);
    assert CursorOf(initial, pages, i / 2) != CursorOf(initial, pages, j / 2);
  }

  /** Requests stand at even places, at the cursor of their page, right after that cursor's page was persisted. */
  lemma RequestPosition(script: Script, history: seq<Call>, account: nat, initial: Option<Cursor>, limit: nat,
                        abortable: bool,
                        pages: seq<Page>, stop: Stop, i: nat)
    requires Traversed(script, history, account, initial, limit, abortable, pages, stop)
    requires var calls := Calls(account, initial, pages) + StopCalls(account, CursorAfter(initial, pages), stop);
             i < |calls| && calls[i].Requested?
    ensures var calls := Calls(account, initial, pages) + StopCalls(account, CursorAfter(initial, pages), stop);
            && i % 2 == 0 && i / 2 <= |pages| && i / 2 < limit
            && calls[i] == Requested(account, CursorOf(initial, pages, i / 2))
            && (i > 0 ==> calls[i - 1].Persisted? && calls[i - 1].page.next == calls[i].cursor)
  {
    var k := i / 2;
    if k < |pages| {
      CallsByPosition(account, initial, pages, k);
    }
    if 0 < k <= |pages| {
      CallsByPosition(account, initial, pages, k - 1);
    }
    if |pages| > 0 {
      CallsByPosition(account, initial, pages, |pages| - 1);
    }
  }

  // ---- a sync over all accounts ----

  /** One finished account: its pages and its last page. */
  datatype Chain = Chain(pages: seq<Page>, last: Page)

  function ChainCalls(account: nat, chain: Chain): seq<Call> {
    Calls(account, None, chain.pages)
    + [Requested(account, CursorAfter(None, chain.pages)), Persisted(account, chain.last), AccountCompleted(account)]
  }

  function FinishedCalls(accounts: seq<nat>, chains: seq<Chain>): seq<Call>
    requires |accounts| == |chains|
  {
    if accounts == [] then []
    else FinishedCalls(accounts[..|accounts| - 1], chains[..|chains| - 1])
         + ChainCalls(accounts[|accounts| - 1], chains[|chains| - 1])
  }

  /** Every account's chain was followed to a page without a next cursor. */
  ghost predicate Finished(script: Script, history: seq<Call>, accounts: seq<nat>, limit: nat, chains: seq<Chain>) {
    |chains| == |accounts|
    && forall i :: 0 <= i < |accounts| ==> FinishedAt(script, history, accounts, limit, chains, i)
  }

  /** Account `i` of a finished sync. */
  ghost predicate FinishedAt(script: Script, history: seq<Call>, accounts: seq<nat>, limit: nat, chains: seq<Chain>,
                             i: nat)
    requires i < |accounts| == |chains|
  {
    Traversed(script, history + FinishedCalls(accounts[..i], chains[..i]), accounts[i], None, limit, false,
              chains[i].pages, Ended(chains[i].last))
  }

  lemma FinishedPrefix(script: Script, history: seq<Call>, accounts: seq<nat>, account: nat, limit: nat,
                       chains: seq<Chain>, chain: Chain, i: nat)
    requires i < |accounts| == |chains|
    ensures FinishedAt(script, history, accounts + [account], limit, chains + [chain], i)
            <==> FinishedAt(script, history, accounts, limit, chains, i)
  {
    assert (accounts + [account])[..i] == accounts[..i] && (chains + [chain])[..i] == chains[..i];
  }

  lemma FinishedNext(script: Script, history: seq<Call>, accounts: seq<nat>, account: nat, limit: nat,
                     chains: seq<Chain>, chain: Chain)
    requires Finished(script, history, accounts, limit, chains)
    requires Traversed(script, history + FinishedCalls(accounts, chains), account, None, limit, false, chain.pages,
                       Ended(chain.last))
    ensures Finished(script, history, accounts + [account], limit, chains + [chain])
    ensures FinishedCalls(accounts + [account], chains + [chain])
            == FinishedCalls(accounts, chains) + ChainCalls(account, chain)
  {
    FrontOfSnoc(accounts, account);
    FrontOfSnoc(chains, chain);
    forall i | 0 <= i < |accounts|
      ensures FinishedAt(script, history, accounts + [account], limit, chains + [chain], i)
    {
      FinishedPrefix(script, history, accounts, account, limit, chains, chain, i);
    }
    assert FinishedAt(script, history, accounts + [account], limit, chains + [chain], |accounts|);
  }

  datatype Outcome = Imported | DetectionFailed | ImportFailed | FailureNotRecorded | StartFailed | LimitInvalid

  ghost predicate StoppedAfter(script: Script, history: seq<Call>, account: nat, limit: nat, pages: seq<Page>,
                               tail: seq<Call>) {
    Traversed(script, history, account, None, limit, false, pages, Unfinished(tail))
  }

  ghost predicate StoppedInPages(script: Script, history: seq<Call>, account: nat, limit: nat, rest: seq<Call>) {
    exists pages, tail ::
        StoppedAfter(script, history, account, limit, pages, tail) && rest == Calls(account, None, pages) + tail
  }

  ghost predicate NotCompleted(script: Script, history: seq<Call>, account: nat, limit: nat, rest: seq<Call>) {
    exists chain: Chain ::
      && rest == ChainCalls(account, chain) && !Succeeds(script, history + rest)
      && Traversed(script, history, account, None, limit, false, chain.pages, Ended(chain.last))
  }

  /** The calls of the account that did not finish: its pages stopped, or its completion failed. */
  ghost predicate FailedAccount(script: Script, history: seq<Call>, account: nat, limit: nat, rest: seq<Call>) {
    StoppedInPages(script, history, account, limit, rest) || NotCompleted(script, history, account, limit, rest)
  }

  /** A failed sync: some accounts finished, then one failed, or all finished and the completion failed. */
  ghost predicate FailedIn(script: Script, history: seq<Call>, accounts: seq<nat>, limit: nat, chains: seq<Chain>,
                           rest: seq<Call>) {
    var k := |chains|;
    && k <= |accounts| && Finished(script, history, accounts[..k], limit, chains)
    && var before := history + FinishedCalls(accounts[..k], chains);
       if k == |accounts| then rest == [SyncCompleted] && !Succeeds(script, before + rest)
       else FailedAccount(script, before, accounts[k], limit, rest)
  }

  /** The whole record of a sync, by its outcome. */
  ghost predicate Recorded(script: Script, history: seq<Call>, accounts: seq<nat>, limit: nat, detects: bool,
                           outcome: Outcome,
                           chains: seq<Chain>, rest: seq<Call>, trace: seq<Call>) {
    var started := history + [SyncStarted];
    match outcome
    case LimitInvalid => trace == history
    case StartFailed => trace == started && !Succeeds(script, started)
    case Imported | DetectionFailed =>
      && Finished(script, started, accounts, limit, chains)
      && var completed := started + FinishedCalls(accounts, chains) + [SyncCompleted];
         && Succeeds(script, completed)
         && trace == (if detects then completed + [ReplacementsDetected] else completed)
         && (outcome.DetectionFailed? <==> detects && !Succeeds(script, trace))
    case ImportFailed | FailureNotRecorded =>
      && FailedIn(script, started, accounts, limit, chains, rest)
      && trace == started + FinishedCalls(accounts[..|chains|], chains) + rest + [SyncFailed]
      && (outcome.ImportFailed? <==> Succeeds(script, trace))
  }

  /** The cursor that a webhook payload hints at, or a hint that its normalisation refuses. */
  datatype Hint = Unreadable | StartAt(initial: Option<Cursor>)

  /** Nothing usable came back, or a page that was saved or could not be. */
  datatype Taken = NoPage | NotSaved(page: Page) | Saved(page: Page)

  class Importer {
    const script: Script
    var trace: seq<Call>

    constructor (script: Script)
      ensures this.script == script && trace == []
    {
      this.script, trace := script, [];
    }

    /** Every call outside, answered by the script. */
    method Ask(call: Call) returns (answer: Answer)
      modifies this
      ensures trace == old(trace) + [call] && answer == script.answer(trace)
    {
      trace := trace + [call];
      answer := script.answer(trace);
    }

    /** A request, the cycle check, and the attempt to persist the page. */
    method TakePage(account: nat, cursor: Option<Cursor>, requested: set<Cursor>) returns (taken: Taken)
      modifies this
      ensures var asked := old(trace) + [Requested(account, cursor)];
              if taken.NoPage? then
                trace == asked && (!script.answer(asked).Fetched? || Repeats(script.answer(asked).page, requested))
              else
                && script.answer(asked) == Fetched(taken.page) && !Repeats(taken.page, requested)
                && trace == old(trace) + [Requested(account, cursor), Persisted(account, taken.page)]
                && (taken.NotSaved? <==> script.answer(trace).Failure?)
    {
      var answer := Ask(Requested(account, cursor));
      if !answer.Fetched? || (answer.page.next.Some? && answer.page.next.value in requested) {
        return NoPage;
      }
      PairOfCalls(old(trace), account, cursor, answer.page);
      var saved := Ask(Persisted(account, answer.page));
      taken := if saved.Failure? then NotSaved(answer.page) else Saved(answer.page);
    }

    /**
     One page loop: the cursor set, the page limit, the cycle check before persisting, and the optional
     abort check.
     */
    method DrainPages(account: nat, initial: Option<Cursor>, limit: nat, abortable: bool)
      returns (ghost pages: seq<Page>, stop: Stop)
      modifies this
      ensures Traversed(script, old(trace), account, initial, limit, abortable, pages, stop)
      ensures trace == old(trace) + Calls(account, initial, pages)
              + StopCalls(account, CursorAfter(initial, pages), stop)
    {
      var cursor := initial;
      var requested: set<Cursor> := {};
      var pageNumber := 1;
      pages := [];
      ghost var start := trace;
      AppendNothing(start);
      while true
        invariant 1 <= pageNumber <= limit + 1 && |pages| == pageNumber - 1
        invariant trace == start + Calls(account, initial, pages) && cursor == CursorAfter(initial, pages)
        invariant Leads(initial, pages) && Answered(script, start, account, initial, pages)
        invariant requested == Used(initial, pages, |pages|)
        decreases limit + 1 - pageNumber
      {
        if pageNumber > limit || (abortable && script.aborted(trace)) {
          AppendNothing(trace);
          return pages, Unfinished([]);
        }
        if cursor.Some? {
          CursorIsNew(initial, pages, |pages|);
          if cursor.value in requested {
            assert false;
          }
          requested := requested + {cursor.value};
        }
        var taken := TakePage(account, cursor, requested);
        if taken.NoPage? {
          return pages, Unfinished([Requested(account, cursor)]);
        }
        var page := taken.page;
        if taken.NotSaved? {
          return pages, Unfinished([Requested(account, cursor), Persisted(account, page)]);
        }
        if page.next.None? {
          return pages, Ended(page);
        }
        PageNext(script, start, account, initial, pages, page);
        pages := pages + [page];
        cursor := page.next;
        pageNumber := pageNumber + 1;
      }
    }

    /** The loop over accounts, each completed after its chain ended. */
    method ImportAccounts(accounts: seq<nat>, limit: nat)
      returns (ok: bool, ghost chains: seq<Chain>, ghost rest: seq<Call>)
      modifies this
      ensures |chains| <= |accounts| && Finished(script, old(trace), accounts[..|chains|], limit, chains)
      ensures ok ==> |chains| == |accounts| && trace == old(trace) + FinishedCalls(accounts, chains)
      ensures !ok ==> |chains| < |accounts| && trace == old(trace) + FinishedCalls(accounts[..|chains|], chains) + rest
      ensures !ok ==> FailedAccount(script, old(trace) + FinishedCalls(accounts[..|chains|], chains),
                                    accounts[|chains|], limit, rest)
    {
      chains, rest, ok := [], [], true;
      ghost var start := trace;
      AppendNothing(start);
      for k := 0 to |accounts|
        invariant |chains| == k && Finished(script, start, accounts[..k], limit, chains)
        invariant trace == start + FinishedCalls(accounts[..k], chains)
      {
        ghost var before := trace;
        ghost var pages;
        var stop;
        pages, stop := DrainPages(accounts[k], None, limit, false);
        if stop.Unfinished? {
          rest := Calls(accounts[k], None, pages) + stop.tail;
          Associate(before, Calls(accounts[k], None, pages), stop.tail);
          assert StoppedAfter(script, before, accounts[k], limit, pages, stop.tail);
          return false, chains, rest;
        }
        var completed := Ask(AccountCompleted(accounts[k]));
        ghost var chain := Chain(pages, stop.last);
        ChainJoins(before, accounts[k], chain);
        if completed.Failure? {
          rest := ChainCalls(accounts[k], chain);
          return false, chains, rest;
        }
        FinishedNext(script, start, accounts[..k], accounts[k], limit, chains, chain);
        assert accounts[..k + 1] == accounts[..k] + [accounts[k]];
        Associate(start, FinishedCalls(accounts[..k], chains), ChainCalls(accounts[k], chain));
        chains := chains + [chain];
      }
      assert accounts[..|accounts|] == accounts;
    }

    /** importTransactions: every failure after the start is recorded by exactly one attempt. */
    method ImportTransactions(accounts: seq<nat>, maxPages: int, detects: bool)
      returns (outcome: Outcome, ghost chains: seq<Chain>, ghost rest: seq<Call>)
      modifies this
      ensures outcome.LimitInvalid? <==> maxPages <= 0
      ensures Recorded(script, old(trace), accounts, if maxPages <= 0 then 0 else maxPages, detects, outcome, chains,
                       rest, trace)
    {
      chains, rest := [], [];
      if maxPages <= 0 {
        return LimitInvalid, chains, rest;
      }
      var start := Ask(SyncStarted);
      if start.Failure? {
        return StartFailed, chains, rest;
      }
      ghost var started := trace;
      var imported;
      imported, chains, rest := ImportAccounts(accounts, maxPages);
      assert accounts[..|accounts|] == accounts;
      if imported {
        var completed := Ask(SyncCompleted);
        imported := !completed.Failure?;
        rest := [SyncCompleted];
      }
      if !imported {
        var recorded := Ask(SyncFailed);
        return if recorded.Failure? then FailureNotRecorded else ImportFailed, chains, rest;
      }
      if detects {
        var detected := Ask(ReplacementsDetected);
        if detected.Failure? {
          return DetectionFailed, chains, rest;
        }
      }
      outcome := Imported;
    }

    /**
     processTransactionEvent after its sync has started: one chain from a hinted cursor, with abort checks.
     A hint that cannot be read fails the sync before any page is asked for.
     */
    method ProcessTransactionEvent(account: nat, hint: Hint, deletes: bool)
      returns (outcome: Outcome, ghost pages: seq<Page>, stop: Stop)
      modifies this
      ensures hint.Unreadable? ==>
                && trace == old(trace) + [SyncFailed]
                && outcome == if Succeeds(script, trace) then ImportFailed else FailureNotRecorded
      ensures hint.StartAt? ==>
                Traversed(script, old(trace), account, hint.initial, 10_000, true, pages, stop)
      ensures hint.StartAt? ==>
                var drained := old(trace) + Calls(account, hint.initial, pages)
                               + StopCalls(account, CursorAfter(hint.initial, pages), stop);
                EventRecorded(script, drained, account, deletes, outcome, stop, trace)
    {
      if hint.Unreadable? {
        var recorded := Ask(SyncFailed);
        return if recorded.Failure? then FailureNotRecorded else ImportFailed, [], Unfinished([]);
      }
      pages, stop := DrainPages(account, hint.initial, 10_000, true);
      var ok := stop.Ended?;
      if ok && deletes {
        var deleted := Ask(RowsDeleted(account));
        ok := !deleted.Failure?;
      }
      if ok {
        var completed := Ask(SyncCompleted);
        ok := !completed.Failure?;
      }
      if !ok {
        var recorded := Ask(SyncFailed);
        return if recorded.Failure? then FailureNotRecorded else ImportFailed, pages, stop;
      }
      var detected := Ask(ReplacementsDetected);
      outcome := if detected.Failure? then DetectionFailed else Imported;
    }
  }

  /** What follows the pages of a webhook sync. */
  ghost predicate EventRecorded(script: Script, drained: seq<Call>, account: nat, deletes: bool, outcome: Outcome,
                                stop: Stop, trace: seq<Call>) {
    var deleted := if deletes then drained + [RowsDeleted(account)] else drained;
    var completed := deleted + [SyncCompleted];
    if stop.Ended? && (deletes ==> Succeeds(script, deleted)) && Succeeds(script, completed)
    then
      && trace == completed + [ReplacementsDetected]
      && outcome == if Succeeds(script, trace) then Imported else DetectionFailed
    else
      && trace == (if stop.Unfinished? then drained else if deletes && !Succeeds(script, deleted) then deleted
                   else completed) + [SyncFailed]
      && outcome == if Succeeds(script, trace) then ImportFailed else FailureNotRecorded
  }

  lemma ChainJoins(before: seq<Call>, account: nat, chain: Chain)
    ensures before + Calls(account, None, chain.pages)
            + [Requested(account, CursorAfter(None, chain.pages)), Persisted(account, chain.last)]
              + [AccountCompleted(account)]
            == before + ChainCalls(account, chain)
  {
  }

  // ---- completion and failure ----

  /** Neither the end of a sync nor its failure. */
  predicate AllWork(calls: seq<Call>) {
    forall i :: 0 <= i < |calls| ==> calls[i].Requested? || calls[i].Persisted? || calls[i].AccountCompleted?
  }

  lemma WorkJoins(a: seq<Call>, b: seq<Call>)
    requires AllWork(a) && AllWork(b)
    ensures AllWork(a + b)
  {
  }

  lemma {:induction false} PagesAreWork(account: nat, initial: Option<Cursor>, pages: seq<Page>)
    ensures AllWork(Calls(account, initial, pages))
  {
    if pages != [] {
      PagesAreWork(account, initial, pages[..|pages| - 1]);
    }
  }

  lemma ChainIsWork(account: nat, chain: Chain)
    ensures AllWork(ChainCalls(account, chain))
  {
    PagesAreWork(account, None, chain.pages);
  }

  lemma {:induction false} AccountsAreWork(accounts: seq<nat>, chains: seq<Chain>)
    requires |accounts| == |chains|
    ensures AllWork(FinishedCalls(accounts, chains))
  {
    if accounts != [] {
      var n := |accounts| - 1;
      AccountsAreWork(accounts[..n], chains[..n]);
      ChainIsWork(accounts[n], chains[n]);
      WorkJoins(FinishedCalls(accounts[..n], chains[..n]), ChainCalls(accounts[n], chains[n]));
    }
  }

  lemma FailedAccountIsWork(script: Script, history: seq<Call>, account: nat, limit: nat, rest: seq<Call>)
    requires FailedAccount(script, history, account, limit, rest)
    ensures AllWork(rest)
  {
    if StoppedInPages(script, history, account, limit, rest) {
      var pages, tail :| StoppedAfter(script, history, account, limit, pages, tail)
        && rest == Calls(account, None, pages) + tail;
      PagesAreWork(account, None, pages);
      TailIsWork(script, history + Calls(account, None, pages), account, CursorAfter(None, pages),
                 Used(None, pages, |pages| + 1), |pages| == limit, tail);
      WorkJoins(Calls(account, None, pages), tail);
    } else {
      var chain: Chain :| rest == ChainCalls(account, chain);
      ChainIsWork(account, chain);
    }
  }

  lemma TailIsWork(script: Script, history: seq<Call>, account: nat, cursor: Option<Cursor>, used: set<Cursor>,
                   atLimit: bool, tail: seq<Call>)
    requires StoppedFor(script, history, account, cursor, used, atLimit, false, tail)
    ensures AllWork(tail)
  {
  }

  /** The work of a recorded sync, between its start and the calls that end it. */
  function Work(accounts: seq<nat>, chains: seq<Chain>, rest: seq<Call>, outcome: Outcome): seq<Call>
    requires |chains| <= |accounts|
  {
    FinishedCalls(accounts[..|chains|], chains)
    + if (outcome.ImportFailed? || outcome.FailureNotRecorded?) && |chains| < |accounts| then rest else []
  }

  /** How a recorded sync ends after its work. */
  function Ending(outcome: Outcome, finished: bool, detects: bool): seq<Call> {
    if outcome.ImportFailed? || outcome.FailureNotRecorded? then if finished then [SyncCompleted, SyncFailed]
    else [SyncFailed]
    else if detects then [SyncCompleted, ReplacementsDetected] else [SyncCompleted]
  }

  lemma RecordIsWorkAndEnding(script: Script, history: seq<Call>, accounts: seq<nat>, limit: nat, detects: bool,
                              outcome: Outcome,
                              chains: seq<Chain>, rest: seq<Call>, trace: seq<Call>)
    requires Recorded(script, history, accounts, limit, detects, outcome, chains, rest, trace)
    requires !outcome.LimitInvalid? && !outcome.StartFailed?
    ensures |chains| <= |accounts| && AllWork(Work(accounts, chains, rest, outcome))
    ensures trace == history + [SyncStarted] + Work(accounts, chains, rest, outcome)
            + Ending(outcome, |chains| == |accounts|, detects)
  {
    assert accounts[..|accounts|] == accounts;
    var done := FinishedCalls(accounts[..|chains|], chains);
    AccountsAreWork(accounts[..|chains|], chains);
    AppendNothing(done);
    if outcome.ImportFailed? || outcome.FailureNotRecorded? {
      if |chains| < |accounts| {
        FailedAccountIsWork(script, history + [SyncStarted] + done, accounts[|chains|], limit, rest);
        WorkJoins(done, rest);
        Associate(history + [SyncStarted], done, rest);
      }
    }
  }

  lemma PlaceInTrace(history: seq<Call>, work: seq<Call>, ending: seq<Call>, i: nat)
    requires AllWork(work) && |history| <= i < |history + [SyncStarted] + work + ending|
    ensures var call := (history + [SyncStarted] + work + ending)[i];
            if i == |history| then call.SyncStarted?
            else if i < |history| + 1 + |work| then call.Requested? || call.Persisted? || call.AccountCompleted?
            else call == ending[i - |history| - 1 - |work|]
  {
  }

  /** A completed sync recorded no failure; a failed one attempted to record it once, as its last call. */
  lemma FailureIsRecordedOnce(script: Script, history: seq<Call>, accounts: seq<nat>, limit: nat, detects: bool,
                              outcome: Outcome,
                              chains: seq<Chain>, rest: seq<Call>, trace: seq<Call>, i: nat)
    requires Recorded(script, history, accounts, limit, detects, outcome, chains, rest, trace)
    requires |history| <= i < |trace| && trace[i].SyncFailed?
    ensures (outcome.ImportFailed? || outcome.FailureNotRecorded?) && i == |trace| - 1
  {
    if !outcome.LimitInvalid? && !outcome.StartFailed? {
      RecordIsWorkAndEnding(script, history, accounts, limit, detects, outcome, chains, rest, trace);
      PlaceInTrace(history, Work(accounts, chains, rest, outcome), Ending(outcome, |chains| == |accounts|, detects), i);
    }
  }

  /** A sync is completed only after every account's chain ended without a next cursor. */
  lemma CompletionMeansAllChainsEnded(script: Script, history: seq<Call>, accounts: seq<nat>, limit: nat,
                                      detects: bool, outcome: Outcome,
                                      chains: seq<Chain>, rest: seq<Call>, trace: seq<Call>, i: nat)
    requires Recorded(script, history, accounts, limit, detects, outcome, chains, rest, trace)
    requires |history| <= i < |trace| && trace[i].SyncCompleted?
    ensures Finished(script, history + [SyncStarted], accounts, limit, chains)
    ensures forall a :: 0 <= a < |accounts| ==> chains[a].last.next.None?
  {
    assert !outcome.LimitInvalid? && !outcome.StartFailed?;
    RecordIsWorkAndEnding(script, history, accounts, limit, detects, outcome, chains, rest, trace);
    PlaceInTrace(history, Work(accounts, chains, rest, outcome), Ending(outcome, |chains| == |accounts|, detects), i);
    assert |chains| == |accounts|;
    assert accounts[..|accounts|] == accounts;
    FinishedChainsEnd(script, history + [SyncStarted], accounts, limit, chains);
  }

  lemma FinishedChainsEnd(script: Script, history: seq<Call>, accounts: seq<nat>, limit: nat, chains: seq<Chain>)
    requires Finished(script, history, accounts, limit, chains)
    ensures forall a :: 0 <= a < |accounts| ==> chains[a].last.next.None?
  {
    forall a | 0 <= a < |accounts|
      ensures chains[a].last.next.None?
    {
      assert FinishedAt(script, history, accounts, limit, chains, a);
    }
  }

  lemma PairOfCalls(before: seq<Call>, account: nat, cursor: Option<Cursor>, page: Page)
    ensures before + [Requested(account, cursor)] + [Persisted(account, page)]
            == before + [Requested(account, cursor), Persisted(account, page)]
  {
  }

  /** The cursors of the first `n` requests. */
  function Used(initial: Option<Cursor>, pages: seq<Page>, n: nat): set<Cursor>
    requires n <= |pages| + 1
  {
    if n == 0 then {}
    else
      var cursor := CursorOf(initial, pages, n - 1);
      Used(initial, pages, n - 1) + if cursor.Some? then {cursor.value} else {}
  }

  lemma {:induction false} UsedMeans(initial: Option<Cursor>, pages: seq<Page>, n: nat, c: Cursor)
    requires n <= |pages| + 1
    ensures c in Used(initial, pages, n) <==> exists i :: 0 <= i < n && CursorOf(initial, pages, i) == Some(c)
  {
    if n > 0 {
      UsedMeans(initial, pages, n - 1, c);
    }
  }

  /** The next cursor to request has not been requested: the first check of the loop never fires. */
  lemma CursorIsNew(initial: Option<Cursor>, pages: seq<Page>, n: nat)
    requires Leads(initial, pages) && n == |pages| && CursorAfter(initial, pages).Some?
    ensures CursorAfter(initial, pages).value !in Used(initial, pages, n)
  {
    var c := CursorAfter(initial, pages).value;
    UsedMeans(initial, pages, n, c);
    assert CursorOf(initial, pages, n) == Some(c);
  }

  lemma {:induction false} UsedStays(initial: Option<Cursor>, pages: seq<Page>, page: Page, n: nat)
    requires n <= |pages| + 1
    ensures Used(initial, pages + [page], n) == Used(initial, pages, n)
  {
    if n > 0 {
      UsedStays(initial, pages, page, n - 1);
      assert n > 1 ==> (pages + [page])[n - 2] == pages[n - 2];
    }
  }

  lemma LeadsNext(initial: Option<Cursor>, pages: seq<Page>, page: Page)
    requires Leads(initial, pages) && page.next.Some? && page.next.value !in Used(initial, pages, |pages| + 1)
    ensures Leads(initial, pages + [page])
  {
    var longer := pages + [page];
    UsedMeans(initial, pages, |pages| + 1, page.next.value);
    forall i, j | 0 <= i < j <= |longer|
      ensures CursorOf(initial, longer, i) != CursorOf(initial, longer, j)
    {
      assert CursorOf(initial, longer, i) == CursorOf(initial, pages, i);
      assert j <= |pages| ==> CursorOf(initial, longer, j) == CursorOf(initial, pages, j);
      assert j == |longer| ==> CursorOf(initial, longer, j) == page.next;
    }
  }

  /** One page further. */
  lemma PageNext(script: Script, history: seq<Call>, account: nat, initial: Option<Cursor>, pages: seq<Page>,
                 page: Page)
    requires Leads(initial, pages) && Answered(script, history, account, initial, pages)
    requires page.next.Some? && page.next.value !in Used(initial, pages, |pages| + 1)
    requires script.answer(history + Calls(account, initial, pages)
                           + [Requested(account, CursorAfter(initial, pages))]) == Fetched(page)
    ensures Leads(initial, pages + [page]) && Answered(script, history, account, initial, pages + [page])
    ensures history + Calls(account, initial, pages + [page])
            == history + Calls(account, initial, pages)
              + [Requested(account, CursorAfter(initial, pages)), Persisted(account, page)]
    ensures Used(initial, pages + [page], |pages| + 1) == Used(initial, pages, |pages| + 1)
  {
    FrontOfSnoc(pages, page);
    LeadsNext(initial, pages, page);
    UsedStays(initial, pages, page, |pages| + 1);
    Associate(history, Calls(account, initial, pages),
              [Requested(account, CursorAfter(initial, pages)), Persisted(account, page)]);
  }
}
