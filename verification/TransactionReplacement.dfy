/** Detecting replaced transactions after a sync and handing user state to the replacement. */
module TransactionReplacement {
  import opened Outcomes
  import opened JsonText
  import opened UserState
  import opened ContinuityModel
  import opened ContinuityProperties

  /** Some(strong) for an eligible pair; scoring itself is a given function. */
  type Scoring = (nat, nat) -> Option<bool>

  function PairsOf(pred: nat, successors: seq<nat>, score: Scoring): seq<Candidate> {
    if successors == [] then []
    else
      var rest := PairsOf(pred, successors[1..], score);
      match score(pred, successors[0])
      case None => rest
      case Some(strong) => [Candidate(Link(pred, successors[0]), strong)] + rest
  }

  /** The nested flatMap over predecessors and successors. */
  function Eligible(predecessors: seq<nat>, successors: seq<nat>, score: Scoring): seq<Candidate> {
    if predecessors == [] then []
    else PairsOf(predecessors[0], successors, score) + Eligible(predecessors[1..], successors, score)
  }

  predicate DistinctRows(rows: seq<nat>) {
    forall i, j :: 0 <= i < j < |rows| ==> rows[i] != rows[j]
  }

  lemma {:induction false} PairsAreDistinct(pred: nat, successors: seq<nat>, score: Scoring)
    requires DistinctRows(successors)
    ensures DistinctLinks(PairsOf(pred, successors, score))
    ensures forall c :: c in PairsOf(pred, successors, score) <==>
                        c.link.pred == pred && c.link.succ in successors && score(pred, c.link.succ) == Some(c.strong)
  {
    if successors != [] {
      PairsAreDistinct(pred, successors[1..], score);
      assert successors == [successors[0]] + successors[1..];
      var rest := PairsOf(pred, successors[1..], score);
      forall i | 0 <= i < |rest|
        ensures rest[i].link.succ != successors[0]
      {
        assert rest[i] in rest;
      }
    }
  }

  /** Exactly the scored pairs, each once. */
  lemma {:induction false} EligibleIsDistinct(predecessors: seq<nat>, successors: seq<nat>, score: Scoring)
    requires DistinctRows(predecessors) && DistinctRows(successors)
    ensures DistinctLinks(Eligible(predecessors, successors, score))
    ensures forall c :: c in Eligible(predecessors, successors, score) <==>
                        c.link.pred in predecessors && c.link.succ in successors
                          && score(c.link.pred, c.link.succ) == Some(c.strong)
  {
    if predecessors != [] {
      EligibleIsDistinct(predecessors[1..], successors, score);
      PairsAreDistinct(predecessors[0], successors, score);
      assert predecessors == [predecessors[0]] + predecessors[1..];
      JoinDistinct(PairsOf(predecessors[0], successors, score), Eligible(predecessors[1..], successors, score),
                   predecessors[0]);
    }
  }

  lemma JoinDistinct(a: seq<Candidate>, b: seq<Candidate>, pred: nat)
    requires DistinctLinks(a) && DistinctLinks(b)
    requires forall c :: c in a ==> c.link.pred == pred
    requires forall c :: c in b ==> c.link.pred != pred
    ensures DistinctLinks(a + b)
  {
    forall i, j | 0 <= i < j < |a + b|
      ensures (a + b)[i].link != (a + b)[j].link
    {
      if i < |a| <= j {
        assert a[i] in a && b[j - |a|] in b;
      }
    }
  }

  // ---- counters ----

  function Inserted(links: map<Link, LinkStatus>, candidates: seq<Candidate>, n: nat): nat
    requires n <= |candidates|
  {
    if n == 0 then 0 else Inserted(links, candidates, n - 1) + if candidates[n - 1].link in links then 0 else 1
  }

  function ToReview(links: map<Link, LinkStatus>, candidates: seq<Candidate>, n: nat): nat
    requires n <= |candidates|
  {
    if n == 0 then 0
    else
      var link := candidates[n - 1].link;
      ToReview(links, candidates, n - 1) + if link in links && links[link].NeedsReview? then 1 else 0
  }

  /** Writing a link that no earlier candidate touches changes neither list. */
  lemma {:induction false} UntouchedLink(links: map<Link, LinkStatus>, candidates: seq<Candidate>, n: nat,
                                         link: Link, status: LinkStatus)
    requires n <= |candidates| && forall i :: 0 <= i < n ==> candidates[i].link != link
    ensures AutoLinks(links[link := status], candidates, n) == AutoLinks(links, candidates, n)
    ensures ToReview(links[link := status], candidates, n) == ToReview(links, candidates, n)
  {
    if n > 0 {
      UntouchedLink(links, candidates, n - 1, link, status);
    }
  }

  lemma {:induction false} AbortIsFinal(store: Store, candidates: seq<Candidate>, n: nat, m: nat)
    requires n <= m <= |candidates| && Upserted(store, candidates, n).None?
    ensures Upserted(store, candidates, m).None?
  {
    if n < m {
      AbortIsFinal(store, candidates, n, m - 1);
    }
  }

  /** What recording candidate `i` adds to the lists and counters. */
  lemma RecordOne(before: Store, links: map<Link, LinkStatus>, candidates: seq<Candidate>, i: nat)
    requires DistinctLinks(candidates) && i < |candidates| && Upserted(before, candidates, i) == Some(links)
    ensures var link := candidates[i].link;
            var status := UpsertStatus(links, link, WantedStatus(before, candidates, candidates[i]));
            var after := links[link := status];
            && (IsConfirmed(status) && Clashes(links, link) ==> Upserted(before, candidates, i + 1).None?)
            && (!(IsConfirmed(status) && Clashes(links, link)) ==> Upserted(before, candidates, i + 1) == Some(after))
            && AutoLinks(after, candidates, i + 1)
               == AutoLinks(links, candidates, i) + (if status.AutoConfirmed? then [link] else [])
            && ToReview(after, candidates, i + 1)
               == ToReview(links, candidates, i) + (if status.NeedsReview? then 1 else 0)
            && Inserted(before.links, candidates, i + 1)
               == Inserted(before.links, candidates, i) + (if link in before.links then 0 else 1)
  {
    var link := candidates[i].link;
    UntouchedLink(links, candidates, i, link,
                  UpsertStatus(links, link, WantedStatus(before, candidates, candidates[i])));
  }

  datatype ReplacementError = RunNotCompleted | IndexConflict | Refused | TransferConflict

  datatype Detection = Detection(autoConfirmed: int, candidatesInserted: nat, candidatesSeen: nat, needsReview: nat,
                                 transfersCompleted: nat)

  // ---- the uninterrupted detection, as steps of the shared system ----

  function Remaining(w: Worker): nat {
    match w case Idle => 0 case Transferring(queue) => 2 * |queue| + 1 case Demoting(_, queue) => 2 * |queue| + 2
  }

  /** The worker's own steps until it is idle. */
  function Drain(s: System): System
    decreases Remaining(s.worker)
  {
    match s.worker
    case Idle => s
    case Transferring(_) => Drain(Step(s, WorkerTransfer))
    case Demoting(_, _) => Drain(Step(s, Demote))
  }

  /** The store after the worker has dealt with one link. */
  function AfterLink(store: Store, link: Link): Store {
    match TransferOutcome(store, link, false)
    case Transferred(after) => after
    case SuccessorHasData => store.(links := Demoted(store.links, link))
    case _ => store
  }

  lemma WorkerTakesOne(store: Store, link: Link, rest: seq<Link>)
    requires Consistent(System(store, Transferring([link] + rest)))
    ensures Consistent(System(AfterLink(store, link), Transferring(rest)))
    ensures Drain(System(AfterLink(store, link), Transferring(rest)))
            == Drain(System(store, Transferring([link] + rest)))
    ensures |AfterLink(store, link).transferred|
            == |store.transferred| + if TransferOutcome(store, link, false).Transferred? then 1 else 0
  {
    var s := System(store, Transferring([link] + rest));
    WorkerArrives(store, link, rest);
    TransferCounts(store, link);
    TransferStep(s);
    var next := Step(s, WorkerTransfer);
    assert Drain(s) == Drain(next);
    if TransferOutcome(store, link, false).SuccessorHasData? {
      DemoteStep(next);
      assert Drain(next) == Drain(Step(next, Demote));
    }
  }

  /** One step of the worker, or two with a demotion, take it past the link. */
  lemma WorkerArrives(store: Store, link: Link, rest: seq<Link>)
    requires Consistent(System(store, Transferring([link] + rest)))
    ensures var next := Step(System(store, Transferring([link] + rest)), WorkerTransfer);
            var arrived := System(AfterLink(store, link), Transferring(rest));
            if TransferOutcome(store, link, false).SuccessorHasData?
            then next == System(store, Demoting(link, rest)) && Step(next, Demote) == arrived
            else next == arrived
  {
    assert ([link] + rest)[0] == link && ([link] + rest)[1..] == rest;
    WorkerNeverAborts(System(store, Transferring([link] + rest)));
  }

  lemma TransferCounts(store: Store, link: Link)
    ensures |AfterLink(store, link).transferred|
            == |store.transferred| + if TransferOutcome(store, link, false).Transferred? then 1 else 0
  {
  }

  /** The report counts every candidate, and a demotion moves one from confirmed to review. */
  predicate Accounted(links: map<Link, LinkStatus>, candidates: seq<Candidate>, d: Detection) {
    && d.candidatesSeen == |candidates|
    && d.autoConfirmed + d.needsReview
       == |AutoLinks(links, candidates, |candidates|)| + ToReview(links, candidates, |candidates|)
    && 0 <= d.autoConfirmed <= |AutoLinks(links, candidates, |candidates|)|
  }

  class ReplacementRepository {
    var links: map<Link, LinkStatus>
    var transferred: set<Link>
    var states: map<nat, State>
    var tags: map<nat, set<Text>>

    function Contents(): Store
      reads this
    {
      Store(links, transferred, states, tags)
    }

    /** Counting how many candidates each end of a pair has. */
    method CountCandidates(eligible: seq<Candidate>) returns (predecessors: map<nat, nat>, successors: map<nat, nat>)
      ensures forall c :: c in eligible ==>
                c.link.pred in predecessors && predecessors[c.link.pred] == CountPred(eligible, |eligible|, c.link.pred)
      ensures forall c :: c in eligible ==>
                c.link.succ in successors && successors[c.link.succ] == CountSucc(eligible, |eligible|, c.link.succ)
    {
      predecessors, successors := map[], map[];
      for i := 0 to |eligible|
        invariant forall p :: p in predecessors ==> predecessors[p] == CountPred(eligible, i, p)
        invariant forall p: nat :: p !in predecessors ==> CountPred(eligible, i, p) == 0
        invariant forall s :: s in successors ==> successors[s] == CountSucc(eligible, i, s)
        invariant forall s: nat :: s !in successors ==> CountSucc(eligible, i, s) == 0
      {
        var link := eligible[i].link;
        var p := if link.pred in predecessors then predecessors[link.pred] else 0;
        var s := if link.succ in successors then successors[link.succ] else 0;
        predecessors := predecessors[link.pred := p + 1];
        successors := successors[link.succ := s + 1];
      }
      forall c | c in eligible
        ensures c.link.pred in predecessors && c.link.succ in successors
      {
        var i :| 0 <= i < |eligible| && eligible[i] == c;
        CountedOnce(eligible, |eligible|, i);
      }
    }

    /** One upsert; the unique index may refuse it. */
    method Upsert(link: Link, wanted: LinkStatus) returns (ok: bool, status: LinkStatus)
      modifies this`links
      ensures status == UpsertStatus(old(links), link, wanted)
      ensures ok <==> !(IsConfirmed(status) && Clashes(old(links), link))
      ensures links == if ok then old(links)[link := status] else old(links)
    {
      status := UpsertStatus(links, link, wanted);
      ok := !(IsConfirmed(status) && Clashes(links, link));
      if ok {
        links := links[link := status];
      }
    }

    /** The status for a new link: confirmed only if strong, alone at both ends, and the successor has no user data. */
    method Judge(eligible: seq<Candidate>, i: nat, predecessors: map<nat, nat>, successors: map<nat, nat>,
                 ghost before: Store)
      returns (wanted: LinkStatus)
      requires i < |eligible| && Contents() == before.(links := links)
      requires forall c :: c in eligible ==>
                 c.link.pred in predecessors
                   && predecessors[c.link.pred] == CountPred(eligible, |eligible|, c.link.pred)
      requires forall c :: c in eligible ==>
                 c.link.succ in successors && successors[c.link.succ] == CountSucc(eligible, |eligible|, c.link.succ)
      ensures wanted == WantedStatus(before, eligible, eligible[i])
    {
      var candidate := eligible[i];
      assert candidate in eligible;
      var link := candidate.link;
      var successorUserDataPresent := HasUserData(Contents(), link.succ);
      var unambiguous := predecessors[link.pred] == 1 && successors[link.succ] == 1;
      wanted := if candidate.strong && unambiguous && !successorUserDataPresent then AutoConfirmed
        else LinkStatus.NeedsReview;
    }

    /** The committed part of detection: count, upsert every candidate, or roll all of it back. */
    method RecordCandidates(eligible: seq<Candidate>)
      returns (ok: bool, autoLinks: seq<Link>, inserted: nat, needsReview: nat)
      requires DistinctLinks(eligible)
      modifies this`links
      ensures ok <==> Upserted(old(Contents()), eligible, |eligible|).Some?
      ensures !ok ==> links == old(links)
      ensures ok ==> links == Upserted(old(Contents()), eligible, |eligible|).value
      ensures ok ==> autoLinks == AutoLinks(links, eligible, |eligible|)
      ensures ok ==> inserted == Inserted(old(links), eligible, |eligible|)
                     && needsReview == ToReview(links, eligible, |eligible|)
    {
      ghost var before := Contents();
      var saved := links;
      ok, autoLinks, inserted, needsReview := true, [], 0, 0;
      var predecessorCandidates, successorCandidates := CountCandidates(eligible);
      for i := 0 to |eligible|
        invariant ok && Contents() == before.(links := links)
        invariant Upserted(before, eligible, i) == Some(links)
        invariant autoLinks == AutoLinks(links, eligible, i)
        invariant inserted == Inserted(before.links, eligible, i) && needsReview == ToReview(links, eligible, i)
      {
        var link := eligible[i].link;
        RecordOne(before, links, eligible, i);
        var wanted := Judge(eligible, i, predecessorCandidates, successorCandidates, before);
        var status;
        ok, status := Upsert(link, wanted);
        if !ok {
          AbortIsFinal(before, eligible, i + 1, |eligible|);
          links := saved;
          return;
        }
        if link !in saved {
          inserted := inserted + 1;
        }
        if status.AutoConfirmed? {
          autoLinks := autoLinks + [link];
        }
        if status.NeedsReview? {
          needsReview := needsReview + 1;
        }
      }
    }

    /** transferConfirmed: one transaction that confirms (for a user), copies and records, or changes nothing. */
    method TransferConfirmed(link: Link, byUser: bool) returns (outcome: Transfer)
      modifies this
      ensures outcome == TransferOutcome(old(Contents()), link, byUser)
      ensures Contents() == if outcome.Transferred? then outcome.store else old(Contents())
    {
      if link !in links || links[link].Rejected? {
        return NotCandidate;
      }
      if link in transferred {
        return AlreadyTransferred;
      }
      if !byUser && !links[link].AutoConfirmed? {
        return NotAutomatic;
      }
      var predecessorTags := TagsOf(tags, link.pred);
      if link.succ in states || TagsOf(tags, link.succ) != {} {
        return SuccessorHasData;
      }
      if byUser {
        if Clashes(links, link) {
          return IndexViolation;
        }
        links := links[link := UserConfirmed];
      }
      if link.pred in states {
        states := states[link.succ := Copied(states[link.pred])];
      }
      ghost var given := Given(old(Contents()), link, byUser);
      var remaining := predecessorTags;
      while remaining != {}
        invariant remaining <= predecessorTags
        invariant links == given.links && states == given.states && transferred == old(transferred)
        invariant tags == if remaining == predecessorTags then old(tags)
                  else old(tags)[link.succ := predecessorTags - remaining]
        decreases remaining
      {
        var tag :| tag in remaining;
        assert remaining == predecessorTags ==> predecessorTags - (remaining - {tag}) == {tag};
        assert TagsOf(tags, link.succ) + {tag} == predecessorTags - (remaining - {tag});
        tags := tags[link.succ := TagsOf(tags, link.succ) + {tag}];
        remaining := remaining - {tag};
      }
      assert predecessorTags != {} ==> predecessorTags - {} == predecessorTags;
      transferred := transferred + {link};
      outcome := Transferred(Contents());
    }

    method ReviewCandidate(link: Link, confirm: bool) returns (r: Result<bool, ReplacementError>)
      modifies this
      ensures Contents() == Step(System(old(Contents()), Idle), if confirm then Confirm(link) else Reject(link)).store
      ensures confirm ==> (r.Ok? <==> TransferOutcome(old(Contents()), link, true).Transferred?
                                      || TransferOutcome(old(Contents()), link, true).AlreadyTransferred?)
      ensures !confirm ==> (r.Ok? <==> RejectedLinks(old(links), link).Some?)
    {
      if confirm {
        var outcome := TransferConfirmed(link, true);
        match outcome {
          case Transferred(_) => return Ok(true);
          case AlreadyTransferred => return Ok(false);
          case SuccessorHasData => return Err(TransferConflict);
          case IndexViolation => return Err(IndexConflict);
          case _ => return Err(Refused);
        }
      }
      if link !in links || IsConfirmed(links[link]) {
        return Err(Refused);
      }
      if !links[link].Rejected? {
        links := links[link := Rejected];
      }
      assert links == old(links)[link := Rejected];
      r := Ok(true);
    }

    /** One link of the loop after the commit: transfer it, or demote it when its successor has data by now. */
    method TransferOrDemote(link: Link, ghost rest: seq<Link>) returns (outcome: Transfer)
      requires Consistent(System(Contents(), Transferring([link] + rest)))
      modifies this
      ensures Consistent(System(Contents(), Transferring(rest)))
      ensures Drain(System(Contents(), Transferring(rest)))
              == Drain(System(old(Contents()), Transferring([link] + rest)))
      ensures |transferred| == |old(transferred)| + if outcome.Transferred? then 1 else 0
    {
      WorkerTakesOne(Contents(), link, rest);
      outcome := TransferConfirmed(link, false);
      if outcome.SuccessorHasData? {
        if link in links && links[link].AutoConfirmed? {
          links := links[link := LinkStatus.NeedsReview];
        }
      }
    }

    /** The loop after the commit. */
    method TransferAutomatic(autoLinks: seq<Link>) returns (demoted: nat, completed: nat)
      requires Consistent(System(Contents(), Transferring(autoLinks)))
      modifies this
      ensures System(Contents(), Idle) == Drain(System(old(Contents()), Transferring(autoLinks)))
      ensures LinksMatchTransfers(Contents()) && RowsAreValid(states)
      ensures demoted <= |autoLinks| && |transferred| == |old(transferred)| + completed
    {
      demoted, completed := 0, 0;
      assert autoLinks[0..] == autoLinks;
      for i := 0 to |autoLinks|
        invariant Consistent(System(Contents(), Transferring(autoLinks[i..])))
        invariant Drain(System(Contents(), Transferring(autoLinks[i..])))
                  == Drain(System(old(Contents()), Transferring(autoLinks)))
        invariant demoted <= i && |transferred| == |old(transferred)| + completed
      {
        assert autoLinks[i..] == [autoLinks[i]] + autoLinks[i + 1..];
        var outcome := TransferOrDemote(autoLinks[i], autoLinks[i + 1..]);
        if outcome.Transferred? {
          completed := completed + 1;
        } else if outcome.SuccessorHasData? {
          demoted := demoted + 1;
        }
      }
      assert autoLinks[|autoLinks|..] == [];
      assert Step(System(Contents(), Transferring([])), WorkerTransfer) == System(Contents(), Idle);
    }

    /** detectForSync without interleaving: record, then transfer or demote link by link. */
    method DetectForSync(runCompleted: bool, predecessors: seq<nat>, successors: seq<nat>, score: Scoring)
      returns (r: Result<Detection, ReplacementError>)
      requires DistinctRows(predecessors) && DistinctRows(successors)
      requires LinksMatchTransfers(Contents()) && RowsAreValid(states)
      modifies this
      ensures var eligible := Eligible(predecessors, successors, score);
              && (r.Ok? <==> runCompleted && Upserted(old(Contents()), eligible, |eligible|).Some?)
              && (r.Err? ==> Contents() == old(Contents()))
              && (r.Ok? ==>
                    && System(Contents(), Idle) == Drain(Step(System(old(Contents()), Idle), Detect(eligible)))
                    && |transferred| == |old(transferred)| + r.value.transfersCompleted
                    && Accounted(Upserted(old(Contents()), eligible, |eligible|).value, eligible, r.value))
      ensures LinksMatchTransfers(Contents()) && RowsAreValid(states)
    {
      if !runCompleted {
        return Err(RunNotCompleted);
      }
      var eligible := Eligible(predecessors, successors, score);
      EligibleIsDistinct(predecessors, successors, score);
      DetectStep(System(Contents(), Idle), eligible);
      var ok, autoLinks, inserted, needsReview := RecordCandidates(eligible);
      if !ok {
        return Err(IndexConflict);
      }
      var demoted, completed := TransferAutomatic(autoLinks);
      r := Ok(Detection(|autoLinks| - demoted, inserted, |eligible|, needsReview + demoted, completed));
    }

    /** The tag writes of applying rules to one transaction: insert what is missing, then delete. */
    method ApplyRuleTags(t: nat, added: seq<Text>, removed: seq<Text>)
      modifies this`tags
      ensures Contents()
              == Step(System(old(Contents()), Idle), TagByRule(t, set id | id in added, set id | id in removed)).store
    {
      var rows := TagsOf(tags, t);
      for i := 0 to |added|
        invariant rows == TagsOf(tags, t) + set id | id in added[..i]
      {
        assert added[..i + 1] == added[..i] + [added[i]];
        rows := rows + {added[i]};
      }
      assert added[..|added|] == added;
      ghost var tagged := rows;
      for i := 0 to |removed|
        invariant rows == tagged - set id | id in removed[..i]
      {
        assert removed[..i + 1] == removed[..i] + [removed[i]];
        rows := rows - {removed[i]};
      }
      assert removed[..|removed|] == removed;
      tags := tags[t := rows];
    }

    /** TransactionUserStateRepository.update on one existing transaction. */
    method Update(t: nat, references: References, edit: Edit) returns (r: Result<State, EditError>)
      modifies this
      ensures r == Edited(references, StateOf(old(states), t), edit)
      ensures Contents() == Edits(old(Contents()), t, references, edit)
    {
      var actualVersion := Version(StateOf(states, t));
      if actualVersion != edit.expectedVersion {
        return Err(VersionConflict(actualVersion));
      }
      var resolved := ResolveState(StateOf(states, t), edit);
      var error := ReferenceError(references, edit, resolved);
      if error.Some? {
        return Err(error.value);
      }
      if !RowCheck(resolved) {
        return Err(ConstraintViolation);
      }
      states := states[t := resolved];
      if edit.tagIds.Some? {
        tags := tags[t := set id | id in edit.tagIds.value];
      }
      r := Ok(resolved);
    }
  }
}
