/**
 The state that replacement detection, user reviews, user edits and merchant merges share, and the
 committed steps they take on it.  A link is known by its pair: one candidate row per pair exists.
 */
module ContinuityModel {
  import opened Outcomes
  import opened JsonText
  import opened UserState

  datatype Link = Link(pred: nat, succ: nat)

  datatype LinkStatus = AutoConfirmed | NeedsReview | UserConfirmed | Rejected

  predicate Settled(status: LinkStatus) {
    !status.NeedsReview?
  }

  predicate IsConfirmed(status: LinkStatus) {
    status.AutoConfirmed? || status.UserConfirmed?
  }

  datatype Store = Store(
    links: map<Link, LinkStatus>,
    transferred: set<Link>,
    states: map<nat, State>,
    tags: map<nat, set<Text>>)

  function TagsOf(tags: map<nat, set<Text>>, t: nat): set<Text> {
    if t in tags then tags[t] else {}
  }

  function StateOf(states: map<nat, State>, t: nat): Option<State> {
    if t in states then Some(states[t]) else None
  }

  predicate HasUserData(store: Store, t: nat) {
    t in store.states || TagsOf(store.tags, t) != {}
  }

  /** The partial unique index on confirmed links: another confirmed link of the same predecessor. */
  predicate Clashes(links: map<Link, LinkStatus>, link: Link) {
    exists other :: other in links && other != link && other.pred == link.pred && IsConfirmed(links[other])
  }

  ghost predicate UniquePredecessor(links: map<Link, LinkStatus>) {
    forall a, b :: a in links && b in links && IsConfirmed(links[a]) && IsConfirmed(links[b]) && a.pred == b.pred ==>
        a == b
  }

  // ---- detection ----

  /** An eligible pair; `strong` when its score reaches the threshold for confirmation without review. */
  datatype Candidate = Candidate(link: Link, strong: bool)

  function CountPred(candidates: seq<Candidate>, n: nat, pred: nat): nat
    requires n <= |candidates|
  {
    if n == 0 then 0 else CountPred(candidates, n - 1, pred) + if candidates[n - 1].link.pred == pred then 1 else 0
  }

  function CountSucc(candidates: seq<Candidate>, n: nat, succ: nat): nat
    requires n <= |candidates|
  {
    if n == 0 then 0 else CountSucc(candidates, n - 1, succ) + if candidates[n - 1].link.succ == succ then 1 else 0
  }

  predicate DistinctLinks(candidates: seq<Candidate>) {
    forall i, j :: 0 <= i < j < |candidates| ==> candidates[i].link != candidates[j].link
  }

  /** The status a candidate would get as a new row. */
  function WantedStatus(store: Store, candidates: seq<Candidate>, c: Candidate): LinkStatus {
    if c.strong && CountPred(candidates, |candidates|, c.link.pred) == 1
       && CountSucc(candidates, |candidates|, c.link.succ) == 1
       && !HasUserData(store, c.link.succ)
    then AutoConfirmed else LinkStatus.NeedsReview
  }

  /** The upsert: settled rows keep their status. */
  function UpsertStatus(links: map<Link, LinkStatus>, link: Link, wanted: LinkStatus): LinkStatus {
    if link in links && Settled(links[link]) then links[link] else wanted
  }

  /** The links after the first `n` candidates, or None when the unique index stops the transaction. */
  function Upserted(store: Store, candidates: seq<Candidate>, n: nat): Option<map<Link, LinkStatus>>
    requires n <= |candidates|
  {
    if n == 0 then Some(store.links)
    else
      match Upserted(store, candidates, n - 1)
      case None => None
      case Some(links) =>
        var link := candidates[n - 1].link;
        var status := UpsertStatus(links, link, WantedStatus(store, candidates, candidates[n - 1]));
        if IsConfirmed(status) && Clashes(links, link) then None else Some(links[link := status])
  }

  /** The candidates that end up confirmed automatically, in order. */
  function AutoLinks(links: map<Link, LinkStatus>, candidates: seq<Candidate>, n: nat): seq<Link>
    requires n <= |candidates|
  {
    if n == 0 then []
    else
      var link := candidates[n - 1].link;
      AutoLinks(links, candidates, n - 1) + if link in links && links[link].AutoConfirmed? then [link] else []
  }

  // ---- transfer ----

  datatype Transfer = NotCandidate | AlreadyTransferred | NotAutomatic | SuccessorHasData | IndexViolation
    | Transferred(store: Store)

  /** What the successor is given. */
  function Given(store: Store, link: Link, confirm: bool): Store {
    Store(
      if confirm then store.links[link := UserConfirmed] else store.links,
      store.transferred + {link},
      if link.pred in store.states then store.states[link.succ := Copied(store.states[link.pred])] else store.states,
      if TagsOf(store.tags, link.pred) == {} then store.tags
      else store.tags[link.succ := TagsOf(store.tags, link.pred)])
  }

  /** transferConfirmed: `byUser` confirms the link as well. */
  function TransferOutcome(store: Store, link: Link, byUser: bool): Transfer {
    if link !in store.links || store.links[link].Rejected? then NotCandidate
    else if link in store.transferred then AlreadyTransferred
    else if !byUser && !store.links[link].AutoConfirmed? then NotAutomatic
    else if HasUserData(store, link.succ) then SuccessorHasData
    else if byUser && Clashes(store.links, link) then IndexViolation
    else Transferred(Given(store, link, byUser))
  }

  /** The demotion after a conflict, guarded by the status. */
  function Demoted(links: map<Link, LinkStatus>, link: Link): map<Link, LinkStatus> {
    if link in links && links[link].AutoConfirmed? then links[link := LinkStatus.NeedsReview] else links
  }

  /** reviewCandidate with a rejection; None when the link is missing or confirmed. */
  function RejectedLinks(links: map<Link, LinkStatus>, link: Link): Option<map<Link, LinkStatus>> {
    if link !in links || IsConfirmed(links[link]) then None else Some(links[link := Rejected])
  }

  // ---- steps ----

  /** The one detection at a time: between its commit and its end it transfers and demotes link by link. */
  datatype Worker = Idle | Transferring(queue: seq<Link>) | Demoting(link: Link, queue: seq<Link>)

  datatype System = System(store: Store, worker: Worker)

  datatype Event =
    | Detect(candidates: seq<Candidate>)
    | WorkerTransfer
    | Demote
    | WorkerStops
    | Confirm(link: Link)
    | Reject(link: Link)
    | EditState(t: nat, references: References, edit: Edit)
    | TagByRule(t: nat, added: set<Text>, removed: set<Text>)
    | Merge(source: Text, target: Text)

  function RedirectAll(states: map<nat, State>, source: Text, target: Text): map<nat, State> {
    map t | t in states :: Redirected(states[t], source, target)
  }

  function Edits(store: Store, t: nat, references: References, edit: Edit): Store {
    match Edited(references, StateOf(store.states, t), edit)
    case Err(_) => store
    case Ok(state) =>
      store.(states := store.states[t := state],
             tags := if edit.tagIds.None? then store.tags else store.tags[t := set id | id in edit.tagIds.value])
  }

  /** What applying rules to a transaction makes of its tags: the additions, then the removals. */
  function Retagged(tags: set<Text>, added: set<Text>, removed: set<Text>): set<Text> {
    tags + added - removed
  }

  function WorkerStep(store: Store, queue: seq<Link>): System {
    if queue == [] then System(store, Idle)
    else
      match TransferOutcome(store, queue[0], false)
      case Transferred(after) => System(after, Transferring(queue[1..]))
      case AlreadyTransferred => System(store, Transferring(queue[1..]))
      case SuccessorHasData => System(store, Demoting(queue[0], queue[1..]))
      case _ => System(store, Idle)
  }

  /** A refused step changes nothing; one that is not the worker's turn is no step. */
  function Step(s: System, e: Event): System {
    match e
    case Detect(candidates) =>
      if !s.worker.Idle? || !DistinctLinks(candidates) then s
      else
        (match Upserted(s.store, candidates, |candidates|)
         case None => s
         case Some(links) => System(s.store.(links := links), Transferring(AutoLinks(links, candidates, |candidates|))))
    case WorkerTransfer => if s.worker.Transferring? then WorkerStep(s.store, s.worker.queue) else s
    case Demote =>
      if s.worker.Demoting?
      then System(s.store.(links := Demoted(s.store.links, s.worker.link)), Transferring(s.worker.queue)) else s
    case WorkerStops => s.(worker := Idle)
    case Confirm(link) =>
      (match TransferOutcome(s.store, link, true)
       case Transferred(after) => s.(store := after)
       case _ => s)
    case Reject(link) =>
      (match RejectedLinks(s.store.links, link)
       case None => s
       case Some(links) => s.(store := s.store.(links := links)))
    case EditState(t, references, edit) => s.(store := Edits(s.store, t, references, edit))
    case TagByRule(t, added, removed) =>
      s.(store := s.store.(tags := s.store.tags[t := Retagged(TagsOf(s.store.tags, t), added, removed)]))
    case Merge(source, target) =>
      if source == target then s else s.(store := s.store.(states := RedirectAll(s.store.states, source, target)))
  }

  const START: System := System(Store(map[], {}, map[], map[]), Idle)

  function Run(events: seq<Event>): System {
    if events == [] then START else Step(Run(events[..|events| - 1]), events[|events| - 1])
  }

  // ---- what every step keeps ----

  predicate DistinctQueue(queue: seq<Link>) {
    forall i, j :: 0 <= i < j < |queue| ==> queue[i] != queue[j]
  }

  predicate Queued(links: map<Link, LinkStatus>, queue: seq<Link>) {
    DistinctQueue(queue) && forall i :: 0 <= i < |queue| ==> queue[i] in links && IsConfirmed(links[queue[i]])
  }

  /** A link is transferred only while confirmed, and confirmed by a user only with its transfer. */
  ghost predicate LinksMatchTransfers(store: Store) {
    && UniquePredecessor(store.links)
    && (forall l :: l in store.transferred ==> l in store.links && IsConfirmed(store.links[l]))
    && (forall l :: l in store.links && store.links[l].UserConfirmed? ==> l in store.transferred)
  }

  ghost predicate WorkerIsSane(s: System) {
    match s.worker
    case Idle => true
    case Transferring(queue) => Queued(s.store.links, queue)
    case Demoting(link, queue) =>
      && Queued(s.store.links, queue) && link !in queue && link in s.store.links
      && (s.store.links[link].UserConfirmed? || (s.store.links[link].AutoConfirmed? && link !in s.store.transferred))
  }

  ghost predicate RowsAreValid(states: map<nat, State>) {
    forall t :: t in states ==> RowCheck(states[t])
  }

  ghost predicate Consistent(s: System) {
    LinksMatchTransfers(s.store) && WorkerIsSane(s) && RowsAreValid(s.store.states)
  }

  /** How one store may follow another. */
  ghost predicate LinksProgress(before: Store, after: Store) {
    && (forall l :: l in before.links ==> l in after.links)
    && before.transferred <= after.transferred
    && (forall l :: l in before.links && before.links[l].Rejected? ==> after.links[l].Rejected?)
  }
}
