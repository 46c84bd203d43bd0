/** Safety of replacement links and of user state over every interleaving of the committed steps. */
module ContinuityProperties {
  import opened Outcomes
  import opened JsonText
  import opened UserState
  import opened ContinuityModel

  // ---- detection ----

  /** Links touched by the first `n` candidates. */
  predicate Touched(candidates: seq<Candidate>, n: nat, link: Link)
    requires n <= |candidates|
  {
    exists i :: 0 <= i < n && candidates[i].link == link
  }

  /** Detection only adds candidates and settles unsettled ones; the confirmed stay unique per predecessor. */
  lemma {:induction false} DetectionKeeps(store: Store, candidates: seq<Candidate>, n: nat)
    requires n <= |candidates| && UniquePredecessor(store.links) && Upserted(store, candidates, n).Some?
    ensures var links := Upserted(store, candidates, n).value;
            && UniquePredecessor(links)
            && (forall l :: l in store.links ==> l in links && (Settled(store.links[l]) ==> links[l] == store.links[l]))
            && (forall l :: l in links ==> l in store.links || Touched(candidates, n, l))
            && (forall l :: l in links && Settled(links[l]) && !(l in store.links && Settled(store.links[l])) ==>
                  links[l].AutoConfirmed? && Touched(candidates, n, l))
  {
    if n > 0 {
      DetectionKeeps(store, candidates, n - 1);
      var before := Upserted(store, candidates, n - 1).value;
      var link := candidates[n - 1].link;
      var after := Upserted(store, candidates, n).value;
      assert Touched(candidates, n, link);
      assert forall l :: Touched(candidates, n - 1, l) ==> Touched(candidates, n, l);
    }
  }

  /** A link that detection newly confirms wanted to be confirmed. */
  lemma {:induction false} NewlyConfirmedWasWanted(store: Store, candidates: seq<Candidate>, n: nat, link: Link)
    returns (i: nat)
    requires n <= |candidates| && Upserted(store, candidates, n).Some?
    requires link in Upserted(store, candidates, n).value && Upserted(store, candidates, n).value[link].AutoConfirmed?
    requires !(link in store.links && store.links[link].AutoConfirmed?)
    ensures i < n && candidates[i].link == link && WantedStatus(store, candidates, candidates[i]).AutoConfirmed?
  {
    if candidates[n - 1].link == link
       && UpsertStatus(Upserted(store, candidates, n - 1).value, link, LinkStatus.NeedsReview).NeedsReview? {
      i := n - 1;
    } else {
      i := NewlyConfirmedWasWanted(store, candidates, n - 1, link);
    }
  }

  lemma {:induction false} CountedTwice(candidates: seq<Candidate>, n: nat, i: nat, j: nat)
    requires i < j < n <= |candidates|
    ensures candidates[i].link.pred == candidates[j].link.pred ==>
              CountPred(candidates, n, candidates[i].link.pred) >= 2
    ensures candidates[i].link.succ == candidates[j].link.succ ==>
              CountSucc(candidates, n, candidates[i].link.succ) >= 2
  {
    if j == n - 1 {
      CountedOnce(candidates, n - 1, i);
    } else {
      CountedTwice(candidates, n - 1, i, j);
    }
  }

  lemma {:induction false} CountedOnce(candidates: seq<Candidate>, n: nat, i: nat)
    requires i < n <= |candidates|
    ensures CountPred(candidates, n, candidates[i].link.pred) >= 1
            && CountSucc(candidates, n, candidates[i].link.succ) >= 1
  {
    if i < n - 1 {
      CountedOnce(candidates, n - 1, i);
    }
  }

  /** The links one detection newly confirms form a matching, and their successors had no user data. */
  lemma NewlyConfirmedIsAMatching(store: Store, candidates: seq<Candidate>, a: Link, b: Link)
    requires Upserted(store, candidates, |candidates|).Some?
    requires var links := Upserted(store, candidates, |candidates|).value;
             && a in links && links[a].AutoConfirmed? && !(a in store.links && store.links[a].AutoConfirmed?)
             && b in links && links[b].AutoConfirmed? && !(b in store.links && store.links[b].AutoConfirmed?)
    ensures a.pred == b.pred || a.succ == b.succ ==> a == b
    ensures !HasUserData(store, a.succ)
  {
    var i := NewlyConfirmedWasWanted(store, candidates, |candidates|, a);
    var j := NewlyConfirmedWasWanted(store, candidates, |candidates|, b);
    if i < j {
      CountedTwice(candidates, |candidates|, i, j);
    } else if j < i {
      CountedTwice(candidates, |candidates|, j, i);
    }
  }

  lemma {:induction false} AutoLinksAreQueued(links: map<Link, LinkStatus>, candidates: seq<Candidate>, n: nat)
    requires n <= |candidates| && DistinctLinks(candidates)
    ensures Queued(links, AutoLinks(links, candidates, n))
    ensures forall l :: l in AutoLinks(links, candidates, n) ==> Touched(candidates, n, l)
  {
    if n > 0 {
      AutoLinksAreQueued(links, candidates, n - 1);
      var link := candidates[n - 1].link;
      var queue := AutoLinks(links, candidates, n - 1);
      assert Touched(candidates, n, link);
      assert forall l :: Touched(candidates, n - 1, l) ==> Touched(candidates, n, l);
      assert !Touched(candidates, n - 1, link);
    }
  }

  // ---- transfer ----

  /** A transfer copies the predecessor's data to a successor that had none, and touches nothing else. */
  lemma TransferIsExact(store: Store, link: Link, byUser: bool)
    requires TransferOutcome(store, link, byUser).Transferred? && link.pred != link.succ
    ensures var after := TransferOutcome(store, link, byUser).store;
            && link.succ !in store.states && TagsOf(store.tags, link.succ) == {}
            && (forall t :: t != link.succ ==>
                  StateOf(after.states, t) == StateOf(store.states, t)
                    && TagsOf(after.tags, t) == TagsOf(store.tags, t))
            && TagsOf(after.tags, link.succ) == TagsOf(store.tags, link.pred)
            && (if link.pred in store.states
                then StateOf(after.states, link.succ) == Some(Copied(store.states[link.pred]))
                else link.succ !in after.states)
            && after.transferred == store.transferred + {link} && link !in store.transferred
            && (forall l :: l in store.links && l != link ==> l in after.links && after.links[l] == store.links[l])
  {
  }

  /** The worker's queue never meets a refusal that would end the detection. */
  lemma WorkerNeverAborts(s: System)
    requires Consistent(s) && s.worker.Transferring? && s.worker.queue != []
    ensures var outcome := TransferOutcome(s.store, s.worker.queue[0], false);
            outcome.Transferred? || outcome.AlreadyTransferred? || outcome.SuccessorHasData?
  {
    assert s.worker.queue[0] in s.store.links && IsConfirmed(s.store.links[s.worker.queue[0]]);
  }

  // ---- every step ----

  lemma DetectStep(s: System, candidates: seq<Candidate>)
    requires Consistent(s)
    ensures Consistent(Step(s, Detect(candidates))) && LinksProgress(s.store, Step(s, Detect(candidates)).store)
  {
    if s.worker.Idle? && DistinctLinks(candidates) && Upserted(s.store, candidates, |candidates|).Some? {
      var links := Upserted(s.store, candidates, |candidates|).value;
      DetectionKeeps(s.store, candidates, |candidates|);
      AutoLinksAreQueued(links, candidates, |candidates|);
    }
  }

  lemma TransferStep(s: System)
    requires Consistent(s)
    ensures Consistent(Step(s, WorkerTransfer)) && LinksProgress(s.store, Step(s, WorkerTransfer).store)
  {
    if s.worker.Transferring? && s.worker.queue != [] {
      WorkerNeverAborts(s);
    }
  }

  lemma DemoteStep(s: System)
    requires Consistent(s)
    ensures Consistent(Step(s, Demote)) && LinksProgress(s.store, Step(s, Demote).store)
  {
  }

  lemma ConfirmStep(s: System, link: Link)
    requires Consistent(s)
    ensures Consistent(Step(s, Confirm(link))) && LinksProgress(s.store, Step(s, Confirm(link)).store)
  {
    match s.worker
    case Idle =>
    case Transferring(_) =>
    case Demoting(_, _) =>
  }

  lemma RejectStep(s: System, link: Link)
    requires Consistent(s)
    ensures Consistent(Step(s, Reject(link))) && LinksProgress(s.store, Step(s, Reject(link)).store)
  {
    match s.worker
    case Idle =>
    case Transferring(_) =>
    case Demoting(_, _) =>
  }

  lemma UserStep(s: System, e: Event)
    requires Consistent(s) && (e.EditState? || e.TagByRule? || e.Merge?)
    ensures Consistent(Step(s, e)) && LinksProgress(s.store, Step(s, e).store)
    ensures Step(s, e).store.links == s.store.links && Step(s, e).store.transferred == s.store.transferred
  {
    var after := Step(s, e).store.states;
    forall t | t in after
      ensures RowCheck(after[t])
    {
      if e.EditState? && e.t == t {
        EditAdvances(e.references, StateOf(s.store.states, t), e.edit);
      }
    }
  }

  /** Every step keeps the invariant; links, transfers and rejections only accumulate. */
  lemma StepKeeps(s: System, e: Event)
    requires Consistent(s)
    ensures Consistent(Step(s, e)) && LinksProgress(s.store, Step(s, e).store)
  {
    match e
    case Detect(candidates) => DetectStep(s, candidates);
    case WorkerTransfer => TransferStep(s);
    case Demote => DemoteStep(s);
    case WorkerStops =>
    case Confirm(link) => ConfirmStep(s, link);
    case Reject(link) => RejectStep(s, link);
    case EditState(_, _, _) => UserStep(s, e);
    case TagByRule(_, _, _) => UserStep(s, e);
    case Merge(_, _) => UserStep(s, e);
  }

  lemma {:induction false} ReachableIsConsistent(events: seq<Event>)
    ensures Consistent(Run(events))
  {
    if events != [] {
      ReachableIsConsistent(events[..|events| - 1]);
      StepKeeps(Run(events[..|events| - 1]), events[|events| - 1]);
    }
  }

  /** Over a run's continuation: a transferred link stays transferred and confirmed, a rejected one rejected. */
  lemma {:induction false} TransfersAndRejectionsAreFinal(events: seq<Event>, n: nat, link: Link)
    requires n <= |events|
    ensures link in Run(events[..n]).store.transferred ==>
              && link in Run(events).store.transferred && link in Run(events).store.links
              && IsConfirmed(Run(events).store.links[link])
    ensures link in Run(events[..n]).store.links && Run(events[..n]).store.links[link].Rejected? ==>
              link in Run(events).store.links && Run(events).store.links[link].Rejected?
    decreases |events|
  {
    ReachableIsConsistent(events);
    if n < |events| {
      var front := events[..|events| - 1];
      assert front[..n] == events[..n];
      TransfersAndRejectionsAreFinal(front, n, link);
      ReachableIsConsistent(front);
      StepKeeps(Run(front), events[|events| - 1]);
    } else {
      assert events[..n] == events;
    }
  }

  /** How often a run hands a link's state over. */
  function Transfers(events: seq<Event>, link: Link): nat {
    if events == [] then 0
    else
      var before := Run(events[..|events| - 1]);
      Transfers(events[..|events| - 1], link)
      + if link !in before.store.transferred && link in Run(events).store.transferred then 1 else 0
  }

  lemma {:induction false} TransferredAtMostOnce(events: seq<Event>, link: Link)
    ensures Transfers(events, link) == if link in Run(events).store.transferred then 1 else 0
  {
    if events != [] {
      var front := events[..|events| - 1];
      TransferredAtMostOnce(front, link);
      ReachableIsConsistent(front);
      StepKeeps(Run(front), events[|events| - 1]);
    }
  }

  // ---- user state ----

  /** What one step writes to one transaction's row. */
  datatype Write = EditWrite(edit: Edit, references: References) | CopyWrite(from: State)
    | RedirectWrite(source: Text, target: Text)

  function Written(state: Option<State>, w: Write): Option<State> {
    match w
    case EditWrite(edit, references) =>
      (match Edited(references, state, edit) case Ok(after) => Some(after) case Err(_) => state)
    case CopyWrite(from) => Some(Copied(from))
    case RedirectWrite(source, target) => if state.None? then None else Some(Redirected(state.value, source, target))
  }

  function WriteOf(s: System, e: Event, t: nat): Option<Write> {
    match e
    case EditState(u, references, edit) =>
      if u == t && Edited(references, StateOf(s.store.states, t), edit).Ok? then Some(EditWrite(edit, references))
      else None
    case Confirm(link) => CopyOf(s.store, link, true, t)
    case WorkerTransfer =>
      if s.worker.Transferring? && s.worker.queue != [] then CopyOf(s.store, s.worker.queue[0], false, t) else None
    case Merge(source, target) =>
      if source != target && t in s.store.states && s.store.states[t].merchant.value == Some(source)
      then Some(RedirectWrite(source, target)) else None
    case _ => None
  }

  function CopyOf(store: Store, link: Link, byUser: bool, t: nat): Option<Write> {
    if TransferOutcome(store, link, byUser).Transferred? && link.succ == t && link.pred in store.states
    then Some(CopyWrite(store.states[link.pred])) else None
  }

  /** Every change of a row is a write that raises its version by exactly one. */
  lemma StepWrites(s: System, e: Event, t: nat)
    ensures var before, after := StateOf(s.store.states, t), StateOf(Step(s, e).store.states, t);
            match WriteOf(s, e, t)
            case None => after == before
            case Some(w) => after == Written(before, w) && Version(after) == Version(before) + 1
  {
    match e
    case EditState(u, references, edit) => EditAdvances(references, StateOf(s.store.states, t), edit);
    case _ =>
  }

  /** The writes a run makes to one row, in order. */
  function Writes(events: seq<Event>, t: nat): seq<Write> {
    if events == [] then []
    else
      var front, last := events[..|events| - 1], events[|events| - 1];
      var w := WriteOf(Run(front), last, t);
      Writes(front, t) + if w.Some? then [w.value] else []
  }

  function Fold(writes: seq<Write>): Option<State> {
    if writes == [] then None else Written(Fold(writes[..|writes| - 1]), writes[|writes| - 1])
  }

  /** No update is lost: the row is the fold of its writes and its version counts them. */
  lemma {:induction false} StateIsFoldOfWrites(events: seq<Event>, t: nat)
    ensures StateOf(Run(events).store.states, t) == Fold(Writes(events, t))
    ensures Version(StateOf(Run(events).store.states, t)) == |Writes(events, t)|
  {
    if events != [] {
      var front, last := events[..|events| - 1], events[|events| - 1];
      StateIsFoldOfWrites(front, t);
      StepWrites(Run(front), last, t);
      assert Writes(front, t) + [] == Writes(front, t);
      var w := WriteOf(Run(front), last, t);
      if w.Some? {
        assert Writes(events, t)[..|Writes(front, t)|] == Writes(front, t);
      }
    }
  }

  /** The edit that is a row's k-th write was made against version k, so each expected version succeeds at most once. */
  lemma {:induction false} EditsNameTheirPlace(events: seq<Event>, t: nat, k: nat)
    requires k < |Writes(events, t)| && Writes(events, t)[k].EditWrite?
    ensures Writes(events, t)[k].edit.expectedVersion == k
  {
    var front, last := events[..|events| - 1], events[|events| - 1];
    if k < |Writes(front, t)| {
      EditsNameTheirPlace(front, t, k);
    } else {
      StateIsFoldOfWrites(front, t);
      EditAdvances(last.references, StateOf(Run(front).store.states, t), last.edit);
    }
  }

  lemma ExpectedVersionWinsOnce(events: seq<Event>, t: nat, j: nat, k: nat)
    requires j < |Writes(events, t)| && k < |Writes(events, t)|
    requires Writes(events, t)[j].EditWrite? && Writes(events, t)[k].EditWrite?
    requires Writes(events, t)[j].edit.expectedVersion == Writes(events, t)[k].edit.expectedVersion
    ensures j == k
  {
    EditsNameTheirPlace(events, t, j);
    EditsNameTheirPlace(events, t, k);
  }

  /** In every reachable state a disabled override holds null and versions start at one. */
  lemma DisabledOverridesHoldNull(events: seq<Event>, t: nat)
    requires t in Run(events).store.states
    ensures var row := Run(events).store.states[t];
            && (!row.category.enabled ==> row.category.value.None?)
            && (!row.merchant.enabled ==> row.merchant.value.None?)
            && (!row.role.enabled ==> row.role.value.None?)
            && row.version >= 1
  {
    ReachableIsConsistent(events);
  }

  /**
   Data a transaction already has is its own: its state changes only by its own edits and by a merge's
   redirection of its merchant, its tags only by its own edits and by rules applied to it.
   */
  lemma OwnDataIsNeverOverwritten(s: System, e: Event, t: nat)
    requires HasUserData(s.store, t) && !(e.EditState? && e.t == t)
    ensures TagsOf(Step(s, e).store.tags, t) ==
            if e.TagByRule? && e.t == t then Retagged(TagsOf(s.store.tags, t), e.added, e.removed)
            else TagsOf(s.store.tags, t)
    ensures StateOf(Step(s, e).store.states, t) ==
            if e.Merge? && e.source != e.target && t in s.store.states
            then Some(Redirected(s.store.states[t], e.source, e.target)) else StateOf(s.store.states, t)
  {
  }

  // ---- tags ----

  datatype TagWrite = SetTags(tags: set<Text>) | AdjustTags(added: set<Text>, removed: set<Text>)

  function Tagged(tags: set<Text>, w: TagWrite): set<Text> {
    match w
    case SetTags(chosen) => chosen
    case AdjustTags(added, removed) => Retagged(tags, added, removed)
  }

  /** How a step writes the tags of one transaction: an accepted edit that names tags, a transfer, or rules. */
  function TagWriteOf(s: System, e: Event, t: nat): Option<TagWrite> {
    match e
    case EditState(u, references, edit) =>
      if u == t && edit.tagIds.Some? && Edited(references, StateOf(s.store.states, t), edit).Ok?
      then Some(SetTags(set id | id in edit.tagIds.value)) else None
    case TagByRule(u, added, removed) => if u == t then Some(AdjustTags(added, removed)) else None
    case WorkerTransfer =>
      if s.worker.Transferring? && s.worker.queue != [] then TagCopyOf(s.store, s.worker.queue[0], false, t) else None
    case Confirm(link) => TagCopyOf(s.store, link, true, t)
    case _ => None
  }

  function TagCopyOf(store: Store, link: Link, byUser: bool, t: nat): Option<TagWrite> {
    if TransferOutcome(store, link, byUser).Transferred? && t == link.succ
    then Some(SetTags(TagsOf(store.tags, link.pred))) else None
  }

  lemma StepTags(s: System, e: Event, t: nat)
    ensures TagsOf(Step(s, e).store.tags, t) ==
            var w := TagWriteOf(s, e, t);
            if w.Some? then Tagged(TagsOf(s.store.tags, t), w.value) else TagsOf(s.store.tags, t)
  {
  }

  function TagWrites(events: seq<Event>, t: nat): seq<TagWrite> {
    if events == [] then []
    else
      var front, last := events[..|events| - 1], events[|events| - 1];
      var w := TagWriteOf(Run(front), last, t);
      TagWrites(front, t) + if w.Some? then [w.value] else []
  }

  function FoldTags(writes: seq<TagWrite>): set<Text> {
    if writes == [] then {} else Tagged(FoldTags(writes[..|writes| - 1]), writes[|writes| - 1])
  }

  /** No tag write is lost: a transaction's tags are the fold of its edits, rule applications and transfer, in order. */
  lemma {:induction false} TagsAreFoldOfWrites(events: seq<Event>, t: nat)
    ensures TagsOf(Run(events).store.tags, t) == FoldTags(TagWrites(events, t))
  {
    if events != [] {
      var front, last := events[..|events| - 1], events[|events| - 1];
      TagsAreFoldOfWrites(front, t);
      StepTags(Run(front), last, t);
      assert TagWrites(front, t) + [] == TagWrites(front, t);
      var w := TagWriteOf(Run(front), last, t);
      if w.Some? {
        assert TagWrites(events, t)[..|TagWrites(front, t)|] == TagWrites(front, t);
      }
    }
  }
}
