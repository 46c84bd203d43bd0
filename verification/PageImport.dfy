/**
 Importing one page of provider transactions: raw snapshots when the payload changed, a row per
 provider identity, revisions for what changed, duplicate suspicion by fingerprint, and the run's
 counters.  What is computed from an item alone is given by functions.
 */
module PageImport {
  import opened Outcomes

  datatype Value = Null | Text(s: string) | Instant(t: int) | Number(n: int)

  datatype DuplicateStatus = NotDuplicate | Possible | ConfirmedDuplicate | ConfirmedDistinct

  datatype RoleSource = NoSource | Heuristic | OtherSource

  /** The columns an import writes; `rest` holds those copied or computed from the item alone. */
  datatype Columns = Columns(
    status: string, deletedAt: Option<int>, role: string, fingerprint: string, localDate: int, rest: map<string, Value>)

  datatype Row = Row(
    account: nat, columns: Columns, roleSource: RoleSource, confidence: Option<int>, duplicate: DuplicateStatus,
    snapshot: Option<nat>, updatedAt: int)

  datatype Item = Item(externalAccount: string, currency: string, id: Option<string>, status: string, raw: nat)

  datatype Snapshot = Snapshot(externalId: string, hash: nat)

  datatype RevisionKind = Deletion | ProviderUpdate

  datatype Revision = Revision(id: string, kind: RevisionKind, fields: set<string>)

  /**
   Hashing, dates, classification, fingerprints and the copied columns, for one workspace, account and set
   of bills; and whether the constraints of the tables admit the columns of a row and a revision.
   */
  datatype Derivations = Derivations(
    payloadHash: nat -> nat, localDate: Item -> int, role: Item -> string, fingerprint: Item -> string,
    rest: Item -> map<string, Value>, textHash: string -> nat,
    admitted: Columns -> bool, recordable: Revision -> bool)

  /** The tables; rows are known by provider transaction id, snapshots by their place. */
  datatype Tables = Tables(rows: map<string, Row>, snapshots: seq<Snapshot>, revisions: seq<Revision>)

  datatype Counts = Counts(snapshots: nat, inserted: nat, updated: nat, deleted: nat)

  const NO_COUNTS: Counts := Counts(0, 0, 0, 0)

  predicate IsDeleted(status: string) {
    status == "DELETED"
  }

  // ---- revisions ----

  datatype Summary = Plain(v: Value) | Summarized(length: nat, hash: nat)

  /** Long texts are compared by length and hash. */
  function Summarize(textHash: string -> nat, v: Value): Summary {
    if v.Text? && |v.s| > 100 then Summarized(|v.s|, textHash(v.s)) else Plain(v)
  }

  function ValueAt(columns: map<string, Value>, field: string): Value {
    if field in columns then columns[field] else Null
  }

  function Named(changed: bool, field: string): set<string> {
    if changed then {field} else {}
  }

  /** changedFields: the fields of `incoming` whose summaries differ. */
  function ChangedFields(textHash: string -> nat, existing: Columns, incoming: Columns): set<string> {
    Named(existing.status != incoming.status, "status")
    + Named(existing.deletedAt != incoming.deletedAt, "deletedAt")
    + Named(existing.role != incoming.role, "systemFinancialRole")
    + Named(existing.fingerprint != incoming.fingerprint, "dedupeFingerprint")
    + Named(existing.localDate != incoming.localDate, "transactionLocalDate")
    + set field | field in incoming.rest
                  && Summarize(textHash, ValueAt(existing.rest, field)) != Summarize(textHash, incoming.rest[field])
  }

  // ---- one item ----

  function Incoming(d: Derivations, item: Item, existing: Option<Row>, observedAt: int): Columns {
    var previous := if existing.Some? then existing.value.columns.deletedAt else None;
    Columns(
      item.status,
      if IsDeleted(item.status) then Some(if previous.Some? then previous.value else observedAt) else None,
      d.role(item), d.fingerprint(item), d.localDate(item), d.rest(item))
  }

  predicate Reclassifies(row: Row) {
    row.roleSource.NoSource? || row.roleSource.Heuristic?
  }

  /** The hash of the row's latest snapshot, if that snapshot is this transaction's. */
  function LatestHash(snapshots: seq<Snapshot>, row: Option<Row>, id: string): Option<nat> {
    if row.None? || row.value.snapshot.None? then None
    else
      var at := row.value.snapshot.value;
      if at < |snapshots| && snapshots[at].externalId == id then Some(snapshots[at].hash) else None
  }

  predicate NeedsSnapshot(d: Derivations, t: Tables, item: Item, id: string) {
    LatestHash(t.snapshots, RowAt(t.rows, id), id) != Some(d.payloadHash(item.raw))
  }

  function RowAt(rows: map<string, Row>, id: string): Option<Row> {
    if id in rows then Some(rows[id]) else None
  }

  /** Another row of the account with this fingerprint. */
  predicate Collides(rows: map<string, Row>, account: nat, fingerprint: string) {
    exists id :: id in rows && rows[id].account == account && rows[id].columns.fingerprint == fingerprint
  }

  function Suspect(row: Row, account: nat, fingerprint: string, observedAt: int): Row {
    if row.account == account && row.columns.fingerprint == fingerprint && row.duplicate.NotDuplicate?
    then row.(duplicate := Possible, updatedAt := observedAt) else row
  }

  function SuspectAll(rows: map<string, Row>, account: nat, fingerprint: string, observedAt: int): map<string, Row> {
    map id | id in rows :: Suspect(rows[id], account, fingerprint, observedAt)
  }

  /** The row of a transaction seen for the first time. */
  function NewRow(t: Tables, account: nat, columns: Columns, snapshot: nat, observedAt: int): Row {
    Row(account, columns, Heuristic, None, if Collides(t.rows, account, columns.fingerprint) then Possible
        else NotDuplicate,
        Some(snapshot), observedAt)
  }

  function UpdatedRow(row: Row, columns: Columns, snapshot: nat, observedAt: int): Row {
    row.(columns := columns.(role := if Reclassifies(row) then columns.role else row.columns.role),
         roleSource := if Reclassifies(row) then Heuristic else row.roleSource,
         confidence := if Reclassifies(row) then None else row.confidence,
         snapshot := Some(snapshot), updatedAt := observedAt)
  }

  /** What the row is compared with: a role decided elsewhere does not count as changed. */
  function Compared(row: Row, incoming: Columns): Columns {
    if Reclassifies(row) then incoming else incoming.(role := row.columns.role)
  }

  datatype Imported = Imported(tables: Tables, counts: Counts)

  function One(b: bool): nat {
    if b then 1 else 0
  }

  function ImportItem(d: Derivations, t: Tables, account: nat, item: Item, id: string, observedAt: int): Imported {
    var existing := RowAt(t.rows, id);
    var renewed := NeedsSnapshot(d, t, item, id);
    var snapshots := if renewed then t.snapshots + [Snapshot(id, d.payloadHash(item.raw))] else t.snapshots;
    var snapshot := if renewed || existing.None? || existing.value.snapshot.None? then |t.snapshots|
                    else existing.value.snapshot.value;
    var columns := Incoming(d, item, existing, observedAt);
    match existing
    case None =>
      Imported(
        Tables(SuspectAll(t.rows, account, columns.fingerprint,
                          observedAt)[id := NewRow(t, account, columns, snapshot, observedAt)],
               snapshots, t.revisions),
        Counts(One(renewed), 1, 0, One(IsDeleted(item.status))))
    case Some(row) =>
      var fields := ChangedFields(d.textHash, row.columns, Compared(row, columns));
      var deletes := IsDeleted(item.status) && !IsDeleted(row.columns.status);
      var touched := fields != {} || renewed;
      Imported(
        Tables(t.rows[id := UpdatedRow(row, columns, snapshot, observedAt)], snapshots,
               if fields == {} then t.revisions
               else t.revisions + [Revision(id, if deletes then Deletion else ProviderUpdate, fields)]),
        Counts(One(renewed), 0, One(touched && !deletes), One(touched && deletes)))
  }

  function Add(a: Counts, b: Counts): Counts {
    Counts(a.snapshots + b.snapshots, a.inserted + b.inserted, a.updated + b.updated, a.deleted + b.deleted)
  }

  predicate WithIds(items: seq<Item>) {
    forall i :: 0 <= i < |items| ==> items[i].id.Some?
  }

  /** The provider identity; a page without one is refused. */
  function IdOf(item: Item): string {
    if item.id.Some? then item.id.value else ""
  }

  function Turn(d: Derivations, account: nat, observedAt: int): (Tables, Item) -> Imported {
    (t: Tables, item: Item) => ImportItem(d, t, account, item, IdOf(item), observedAt)
  }

  /** The first `n` items, one after another. */
  function Fold(turn: (Tables, Item) -> Imported, t: Tables, items: seq<Item>, n: nat): Imported
    requires n <= |items|
  {
    if n == 0 then Imported(t, NO_COUNTS)
    else
      var before := Fold(turn, t, items, n - 1);
      var step := turn(before.tables, items[n - 1]);
      Imported(step.tables, Add(before.counts, step.counts))
  }

  function ImportItems(d: Derivations, t: Tables, account: nat, items: seq<Item>, n: nat, observedAt: int): Imported
    requires n <= |items|
  {
    Fold(Turn(d, account, observedAt), t, items, n)
  }

  /** The constraints admit what one item wrote: its row, and the revision if there is one. */
  predicate Admitted(d: Derivations, before: Tables, after: Tables, id: string) {
    && id in after.rows && d.admitted(after.rows[id].columns)
    && (|before.revisions| < |after.revisions| ==> d.recordable(after.revisions[|before.revisions|]))
  }

  /** They admit what item `i` writes after the items before it. */
  predicate ItemAdmitted(d: Derivations, t: Tables, account: nat, items: seq<Item>, i: nat, observedAt: int)
    requires i < |items|
  {
    Admitted(d, ImportItems(d, t, account, items, i, observedAt).tables,
             ImportItems(d, t, account, items, i + 1, observedAt).tables, IdOf(items[i]))
  }

  function Admission(d: Derivations, t: Tables, account: nat, items: seq<Item>, observedAt: int): nat -> bool {
    (i: nat) => i < |items| && ItemAdmitted(d, t, account, items, i, observedAt)
  }

  /** All of the first `n`. */
  predicate FirstAll(admits: nat -> bool, n: nat) {
    n > 0 ==> FirstAll(admits, n - 1) && admits(n - 1)
  }

  predicate PageAdmitted(d: Derivations, t: Tables, account: nat, items: seq<Item>, observedAt: int) {
    FirstAll(Admission(d, t, account, items, observedAt), |items|)
  }

  lemma {:induction false} FirstAllMeans(admits: nat -> bool, n: nat)
    ensures FirstAll(admits, n) <==> forall i: nat :: i < n ==> admits(i)
  {
    if n > 0 {
      FirstAllMeans(admits, n - 1);
    }
  }

  lemma {:induction false} ViolationStays(admits: nat -> bool, n: nat, m: nat)
    requires n <= m && !FirstAll(admits, n)
    ensures !FirstAll(admits, m)
  {
    if n < m {
      ViolationStays(admits, n, m - 1);
    }
  }

  /** One more item after the first `i`: what is imported then, and whether the constraints admit it. */
  lemma ItemNext(d: Derivations, t: Tables, account: nat, items: seq<Item>, i: nat, observedAt: int, so: Imported,
                 one: Imported)
    requires i < |items| && so == ImportItems(d, t, account, items, i, observedAt)
    requires one == ImportItem(d, so.tables, account, items[i], IdOf(items[i]), observedAt)
    ensures Imported(one.tables, Add(so.counts, one.counts)) == ImportItems(d, t, account, items, i + 1, observedAt)
    ensures var admits := Admission(d, t, account, items, observedAt);
            FirstAll(admits, i + 1) <==> FirstAll(admits, i) && Admitted(d, so.tables, one.tables, IdOf(items[i]))
  {
    assert Turn(d, account, observedAt)(so.tables, items[i]) == one;
  }

  // ---- the page ----

  datatype Account = Account(id: nat, externalId: string, currency: string)

  datatype Run = Run(running: bool, inserted: nat, updated: nat, deleted: nat, seen: nat)

  datatype History = History(earliest: Option<int>, latest: Option<int>)

  datatype ImportError =
    | WrongAccount | WrongCurrency | MissingIdentity | DuplicateIdentity | RunUnavailable | AccountUnavailable
    | ConstraintViolation

  predicate DistinctIds(items: seq<Item>) {
    forall i, j :: 0 <= i < j < |items| ==> items[i].id != items[j].id
  }

  /** The checks before the transaction. */
  function PageError(account: Account, items: seq<Item>): Option<ImportError> {
    if exists i :: 0 <= i < |items| && items[i].externalAccount != account.externalId then Some(WrongAccount)
    else if exists i :: 0 <= i < |items| && items[i].currency != account.currency then Some(WrongCurrency)
    else if !WithIds(items) then Some(MissingIdentity)
    else if !DistinctIds(items) then Some(DuplicateIdentity)
    else None
  }

  function Least(bound: Option<int>, d: Derivations, items: seq<Item>, n: nat): Option<int>
    requires n <= |items|
  {
    if n == 0 then bound
    else
      var so := Least(bound, d, items, n - 1);
      var date := d.localDate(items[n - 1]);
      if so.None? || date < so.value then Some(date) else so
  }

  function Greatest(bound: Option<int>, d: Derivations, items: seq<Item>, n: nat): Option<int>
    requires n <= |items|
  {
    if n == 0 then bound
    else
      var so := Greatest(bound, d, items, n - 1);
      var date := d.localDate(items[n - 1]);
      if so.None? || date > so.value then Some(date) else so
  }

  function Counted(run: Run, counts: Counts, seen: nat): Run {
    run.(inserted := run.inserted + counts.inserted, updated := run.updated + counts.updated,
         deleted := run.deleted + counts.deleted, seen := run.seen + seen)
  }

  class ImportRepository {
    const d: Derivations
    var rows: map<string, Row>
    var snapshots: seq<Snapshot>
    var revisions: seq<Revision>
    var run: Run
    var history: History

    function Contents(): Tables
      reads this
    {
      Tables(rows, snapshots, revisions)
    }

    /** One turn of the loop over the page's items. */
    method ImportOne(account: nat, item: Item, id: string, observedAt: int) returns (counts: Counts)
      modifies this`rows, this`snapshots, this`revisions
      ensures Imported(Contents(), counts) == ImportItem(d, old(Contents()), account, item, id, observedAt)
    {
      var existing := RowAt(rows, id);
      var latest := if existing.Some? then existing.value.snapshot else None;
      var payloadHash := d.payloadHash(item.raw);
      var rawSnapshotInserted := LatestHash(snapshots, existing, id) != Some(payloadHash);
      var snapshot := |snapshots|;
      if rawSnapshotInserted {
        snapshots := snapshots + [Snapshot(id, payloadHash)];
      } else {
        snapshot := latest.value;
      }
      var columns := Incoming(d, item, existing, observedAt);
      if existing.None? {
        var collision := Collides(rows, account, columns.fingerprint);
        if collision {
          rows := SuspectAll(rows, account, columns.fingerprint, observedAt);
        }
        rows := rows[id := Row(account, columns, Heuristic, None, if collision then Possible else NotDuplicate,
                               Some(snapshot), observedAt)];
        return Counts(One(rawSnapshotInserted), 1, 0, One(IsDeleted(item.status)));
      }
      var row := existing.value;
      var fields := ChangedFields(d.textHash, row.columns, Compared(row, columns));
      var deletes := IsDeleted(item.status) && !IsDeleted(row.columns.status);
      rows := rows[id := UpdatedRow(row, columns, snapshot, observedAt)];
      if fields != {} {
        revisions := revisions + [Revision(id, if deletes then Deletion else ProviderUpdate, fields)];
      }
      counts := Counts(One(rawSnapshotInserted), 0, 0, 0);
      if fields != {} || rawSnapshotInserted {
        counts := if deletes then counts.(deleted := 1) else counts.(updated := 1);
      }
    }

    /** The loop over the page's items, with its running counters and dates, left at the first violation. */
    method ImportLoop(account: nat, items: seq<Item>, observedAt: int)
      returns (ok: bool, counts: Counts, earliest: Option<int>, latest: Option<int>)
      modifies this`rows, this`snapshots, this`revisions
      ensures ok <==> PageAdmitted(d, old(Contents()), account, items, observedAt)
      ensures ok ==>
                Imported(Contents(), counts) == ImportItems(d, old(Contents()), account, items, |items|, observedAt)
      ensures ok ==> earliest == Least(None, d, items, |items|) && latest == Greatest(None, d, items, |items|)
    {
      ok, counts := true, NO_COUNTS;
      earliest, latest := None, None;
      for i := 0 to |items|
        invariant Imported(Contents(), counts) == ImportItems(d, old(Contents()), account, items, i, observedAt)
        invariant earliest == Least(None, d, items, i) && latest == Greatest(None, d, items, i)
        invariant FirstAll(Admission(d, old(Contents()), account, items, observedAt), i)
      {
        var before := Contents();
        ghost var so := Imported(before, counts);
        var one := ImportOne(account, items[i], IdOf(items[i]), observedAt);
        ItemNext(d, old(Contents()), account, items, i, observedAt, so, Imported(Contents(), one));
        counts := Add(counts, one);
        if !Admitted(d, before, Contents(), IdOf(items[i])) {
          ViolationStays(Admission(d, old(Contents()), account, items, observedAt), i + 1, |items|);
          return false, counts, earliest, latest;
        }
        var date := d.localDate(items[i]);
        if earliest.None? || date < earliest.value {
          earliest := Some(date);
        }
        if latest.None? || date > latest.value {
          latest := Some(date);
        }
      }
    }

    /** importPage; `stored` says whether the run's account row is the given account. */
    method ImportPage(account: Account, items: seq<Item>, stored: bool, observedAt: int)
      returns (r: Result<Counts, ImportError>)
      modifies this
      ensures r.Ok? <==>
                && PageError(account, items).None? && old(run).running && stored
                && PageAdmitted(d, old(Contents()), account.id, items, observedAt)
      ensures r.Err? ==> Contents() == old(Contents()) && run == old(run) && history == old(history)
      ensures r.Ok? ==>
                && Imported(Contents(), r.value)
                   == ImportItems(d, old(Contents()), account.id, items, |items|, observedAt)
                && run == Counted(old(run), r.value, |items|)
                && history == Widened(old(history), d, items)
    {
      var error := PageError(account, items);
      if error.Some? {
        return Err(error.value);
      }
      if !run.running {
        return Err(RunUnavailable);
      }
      if !stored {
        return Err(AccountUnavailable);
      }
      var before := Contents();
      var ok, counts, earliest, latest := ImportLoop(account.id, items, observedAt);
      if !ok {
        rows, snapshots, revisions := before.rows, before.snapshots, before.revisions;
        return Err(ConstraintViolation);
      }
      BoundsMerge(history.earliest, history.latest, d, items, |items|);
      if earliest.Some? && latest.Some? {
        history := History(
          if history.earliest.None? || earliest.value < history.earliest.value then earliest else history.earliest,
          if history.latest.None? || latest.value > history.latest.value then latest else history.latest);
      }
      run := Counted(run, counts, |items|);
      r := Ok(counts);
    }
  }

  /** The account's known history, widened by the page's dates. */
  function Widened(history: History, d: Derivations, items: seq<Item>): History {
    History(Least(history.earliest, d, items, |items|), Greatest(history.latest, d, items, |items|))
  }

  /** Folding the page's dates and then the account's bound is folding them all. */
  lemma {:induction false} BoundsMerge(low: Option<int>, high: Option<int>, d: Derivations, items: seq<Item>, n: nat)
    requires n <= |items|
    ensures Least(None, d, items, n).None? <==> n == 0
    ensures Greatest(None, d, items, n).None? <==> n == 0
    ensures n > 0 ==> Least(low, d, items, n) ==
                      (var page := Least(None, d, items, n); if low.None? || page.value < low.value then page else low)
    ensures n > 0 ==> Greatest(high, d, items, n) ==
                      (var page := Greatest(None, d, items, n); if high.None? || page.value > high.value then page
                       else high)
  {
    if n > 0 {
      BoundsMerge(low, high, d, items, n - 1);
    }
  }
}
