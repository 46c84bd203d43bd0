/** Importing is idempotent, accounts for its rows and only ever raises a duplicate suspicion. */
module PageImportProperties {
  import opened Outcomes
  import opened PageImport

  // ---- a row that already reflects an item ----

  /** A repeated import of the item would find nothing to change. */
  ghost predicate Settled(d: Derivations, t: Tables, item: Item, id: string) {
    && id in t.rows
    && var row := t.rows[id];
       && row.columns == Compared(row, Incoming(d, item, Some(row), 0))
       && (IsDeleted(item.status) ==> row.columns.deletedAt.Some?)
       && !row.roleSource.NoSource? && (row.roleSource.Heuristic? ==> row.confidence.None?)
       && row.snapshot.Some? && row.snapshot.value < |t.snapshots|
       && t.snapshots[row.snapshot.value] == Snapshot(id, d.payloadHash(item.raw))
  }

  lemma ImportSettles(d: Derivations, t: Tables, account: nat, item: Item, id: string, observedAt: int)
    ensures Settled(d, ImportItem(d, t, account, item, id, observedAt).tables, item, id)
  {
    var after := ImportItem(d, t, account, item, id, observedAt).tables;
    var existing := RowAt(t.rows, id);
    if existing.Some? && !NeedsSnapshot(d, t, item, id) {
      assert t.snapshots[existing.value.snapshot.value] == Snapshot(id, d.payloadHash(item.raw));
    }
  }

  /** Importing another transaction leaves a settled row settled: at most its duplicate status rises. */
  lemma OthersStaySettled(d: Derivations, t: Tables, account: nat, item: Item, id: string, observedAt: int,
                          other: Item, otherId: string)
    requires Settled(d, t, other, otherId) && otherId != id
    ensures Settled(d, ImportItem(d, t, account, item, id, observedAt).tables, other, otherId)
  {
  }

  // ---- a page ----

  lemma {:induction false} PageSettles(d: Derivations, t: Tables, account: nat, items: seq<Item>, n: nat,
                                       observedAt: int, i: nat)
    requires i < n <= |items| && WithIds(items) && DistinctIds(items)
    ensures Settled(d, ImportItems(d, t, account, items, n, observedAt).tables, items[i], IdOf(items[i]))
  {
    var before := ImportItems(d, t, account, items, n - 1, observedAt).tables;
    if i == n - 1 {
      ImportSettles(d, before, account, items[i], IdOf(items[i]), observedAt);
    } else {
      PageSettles(d, t, account, items, n - 1, observedAt, i);
      OthersStaySettled(d, before, account, items[n - 1], IdOf(items[n - 1]), observedAt, items[i], IdOf(items[i]));
    }
  }

  /** The same but for when rows were last written. */
  ghost predicate SameButTimes(a: Tables, b: Tables) {
    && a.snapshots == b.snapshots && a.revisions == b.revisions && a.rows.Keys == b.rows.Keys
    && forall id :: id in a.rows ==> a.rows[id].(updatedAt := b.rows[id].updatedAt) == b.rows[id]
  }

  /** One settled item on tables that differ from the settled ones only in times. */
  lemma QuietItem(d: Derivations, t: Tables, before: Tables, account: nat, item: Item, id: string, observedAt: int)
    requires SameButTimes(t, before) && Settled(d, t, item, id)
    ensures SameButTimes(t, ImportItem(d, before, account, item, id, observedAt).tables)
    ensures ImportItem(d, before, account, item, id, observedAt).counts == NO_COUNTS
  {
  }

  lemma {:induction false} FoldIsQuiet(turn: (Tables, Item) -> Imported, t: Tables, items: seq<Item>, n: nat)
    requires n <= |items|
    requires forall u: Tables, i {:trigger turn(u, items[i])} :: 0 <= i < |items| && SameButTimes(t, u) ==>
               SameButTimes(t, turn(u, items[i]).tables) && turn(u, items[i]).counts == NO_COUNTS
    ensures SameButTimes(t, Fold(turn, t, items, n).tables) && Fold(turn, t, items, n).counts == NO_COUNTS
  {
    if n > 0 {
      FoldIsQuiet(turn, t, items, n - 1);
      var before := Fold(turn, t, items, n - 1);
      assert turn(before.tables, items[n - 1]).counts == NO_COUNTS;
    }
  }

  lemma QuietItems(d: Derivations, t: Tables, account: nat, items: seq<Item>, n: nat, observedAt: int)
    requires n <= |items|
    requires forall i :: 0 <= i < |items| ==> Settled(d, t, items[i], IdOf(items[i]))
    ensures SameButTimes(t, ImportItems(d, t, account, items, n, observedAt).tables)
    ensures ImportItems(d, t, account, items, n, observedAt).counts == NO_COUNTS
  {
    var turn := Turn(d, account, observedAt);
    forall u, i | 0 <= i < |items| && SameButTimes(t, u)
      ensures SameButTimes(t, turn(u, items[i]).tables) && turn(u, items[i]).counts == NO_COUNTS
    {
      QuietItem(d, t, u, account, items[i], IdOf(items[i]), observedAt);
    }
    FoldIsQuiet(turn, t, items, n);
  }

  /**
   Importing the same page again, at any later time, inserts no row, snapshot or revision, adds nothing to
   the inserted, updated and deleted counters and leaves every column but the timestamps alone.
   */
  lemma SecondImportIsQuiet(d: Derivations, t: Tables, account: nat, items: seq<Item>, first: int, second: int)
    requires WithIds(items) && DistinctIds(items)
    ensures var once := ImportItems(d, t, account, items, |items|, first).tables;
            var twice := ImportItems(d, once, account, items, |items|, second);
            SameButTimes(once, twice.tables) && twice.counts == NO_COUNTS
  {
    PageIsSettled(d, t, account, items, first);
    QuietItems(d, ImportItems(d, t, account, items, |items|, first).tables, account, items, |items|, second);
  }

  lemma {:induction false} FoldKeepsColumns(turn: (Tables, Item) -> Imported, t: Tables, items: seq<Item>, i: nat,
                                            n: nat, id: string)
    requires i <= n <= |items| && id in Fold(turn, t, items, i).tables.rows
    requires forall u: Tables, k {:trigger turn(u, items[k])} :: i <= k < |items| && id in u.rows ==>
               && id in turn(u, items[k]).tables.rows
               && turn(u, items[k]).tables.rows[id].columns == u.rows[id].columns
    ensures var written, after := Fold(turn, t, items, i).tables.rows, Fold(turn, t, items, n).tables.rows;
            id in after && after[id].columns == written[id].columns
  {
    if i < n {
      FoldKeepsColumns(turn, t, items, i, n - 1, id);
      var before := Fold(turn, t, items, n - 1).tables;
      assert id in turn(before, items[n - 1]).tables.rows;
    }
  }

  /** Later items of a page leave the columns an earlier one wrote. */
  lemma ColumnsStay(d: Derivations, t: Tables, account: nat, items: seq<Item>, observedAt: int, i: nat)
    requires i < |items| && WithIds(items) && DistinctIds(items)
    ensures var written := ImportItems(d, t, account, items, i + 1, observedAt).tables.rows;
            var after := ImportItems(d, t, account, items, |items|, observedAt).tables.rows;
            && IdOf(items[i]) in written && IdOf(items[i]) in after
            && after[IdOf(items[i])].columns == written[IdOf(items[i])].columns
  {
    var turn, id := Turn(d, account, observedAt), IdOf(items[i]);
    PageSettles(d, t, account, items, i + 1, observedAt, i);
    forall u: Tables, k | i + 1 <= k < |items| && id in u.rows
      ensures id in turn(u, items[k]).tables.rows && turn(u, items[k]).tables.rows[id].columns == u.rows[id].columns
    {
      OtherColumnsStay(d, u, account, items[k], IdOf(items[k]), observedAt, id);
    }
    FoldKeepsColumns(turn, t, items, i + 1, |items|, id);
  }

  lemma OtherColumnsStay(d: Derivations, t: Tables, account: nat, item: Item, id: string, observedAt: int,
                         other: string)
    requires other in t.rows && other != id
    ensures var after := ImportItem(d, t, account, item, id, observedAt).tables.rows;
            other in after && after[other].columns == t.rows[other].columns
  {
  }

  lemma ColumnsWereAdmitted(d: Derivations, t: Tables, account: nat, items: seq<Item>, observedAt: int, i: nat)
    requires WithIds(items) && DistinctIds(items) && i < |items| && ItemAdmitted(d, t, account, items, i, observedAt)
    ensures var once := ImportItems(d, t, account, items, |items|, observedAt).tables;
            IdOf(items[i]) in once.rows && d.admitted(once.rows[IdOf(items[i])].columns)
  {
    ColumnsStay(d, t, account, items, observedAt, i);
  }

  /** On settled tables the constraints admit any item whose columns they admitted. */
  lemma SettledItemIsAdmitted(d: Derivations, once: Tables, account: nat, items: seq<Item>, observedAt: int, i: nat)
    requires i < |items| && forall k :: 0 <= k < |items| ==> Settled(d, once, items[k], IdOf(items[k]))
    requires IdOf(items[i]) in once.rows && d.admitted(once.rows[IdOf(items[i])].columns)
    ensures ItemAdmitted(d, once, account, items, i, observedAt)
  {
    QuietItems(d, once, account, items, i, observedAt);
    QuietItems(d, once, account, items, i + 1, observedAt);
    AdmittedAgain(d, once, ImportItems(d, once, account, items, i, observedAt).tables,
                  ImportItems(d, once, account, items, i + 1, observedAt).tables, IdOf(items[i]));
  }

  /** What the constraints admitted once they admit again: a page that was imported can be imported again. */
  lemma SecondImportIsAdmitted(d: Derivations, t: Tables, account: nat, items: seq<Item>, first: int, second: int)
    requires WithIds(items) && DistinctIds(items) && PageAdmitted(d, t, account, items, first)
    ensures PageAdmitted(d, ImportItems(d, t, account, items, |items|, first).tables, account, items, second)
  {
    var once := ImportItems(d, t, account, items, |items|, first).tables;
    var earlier, later := Admission(d, t, account, items, first), Admission(d, once, account, items, second);
    PageIsSettled(d, t, account, items, first);
    FirstAllMeans(earlier, |items|);
    forall i: nat | i < |items|
      ensures later(i)
    {
      assert earlier(i);
      ColumnsWereAdmitted(d, t, account, items, first, i);
      SettledItemIsAdmitted(d, once, account, items, second, i);
    }
    FirstAllMeans(later, |items|);
  }

  lemma PageIsSettled(d: Derivations, t: Tables, account: nat, items: seq<Item>, observedAt: int)
    requires WithIds(items) && DistinctIds(items)
    ensures var once := ImportItems(d, t, account, items, |items|, observedAt).tables;
            forall i :: 0 <= i < |items| ==> Settled(d, once, items[i], IdOf(items[i]))
  {
    forall i | 0 <= i < |items|
      ensures Settled(d, ImportItems(d, t, account, items, |items|, observedAt).tables, items[i], IdOf(items[i]))
    {
      PageSettles(d, t, account, items, |items|, observedAt, i);
    }
  }

  lemma AdmittedAgain(d: Derivations, once: Tables, before: Tables, after: Tables, id: string)
    requires SameButTimes(once, before) && SameButTimes(once, after)
    requires id in once.rows && d.admitted(once.rows[id].columns)
    ensures Admitted(d, before, after, id)
  {
  }

  lemma {:induction false} BoundsAreReached(low: Option<int>, high: Option<int>, d: Derivations, items: seq<Item>,
                                            n: nat, i: nat)
    requires i < n <= |items|
    ensures Least(low, d, items, n).Some? && Least(low, d, items, n).value <= d.localDate(items[i])
    ensures Greatest(high, d, items, n).Some? && d.localDate(items[i]) <= Greatest(high, d, items, n).value
  {
    if i < n - 1 {
      BoundsAreReached(low, high, d, items, n - 1, i);
    }
  }

  predicate Within(low: Option<int>, high: Option<int>, date: int) {
    low.Some? && low.value <= date && high.Some? && date <= high.value
  }

  lemma {:induction false} BoundsStay(low: Option<int>, high: Option<int>, d: Derivations, items: seq<Item>, n: nat)
    requires n <= |items|
    requires forall i :: 0 <= i < n ==> Within(low, high, d.localDate(items[i]))
    ensures Least(low, d, items, n) == low && Greatest(high, d, items, n) == high
  {
    if n > 0 {
      assert Within(low, high, d.localDate(items[n - 1]));
      BoundsStay(low, high, d, items, n - 1);
    }
  }

  /** Nor does the second import widen the account's history; the run only counts the items as seen again. */
  lemma SecondImportKeepsHistory(history: History, run: Run, d: Derivations, items: seq<Item>)
    ensures Widened(Widened(history, d, items), d, items) == Widened(history, d, items)
    ensures Counted(run, NO_COUNTS, |items|) == run.(seen := run.seen + |items|)
  {
    var once := Widened(history, d, items);
    forall i | 0 <= i < |items|
      ensures Within(once.earliest, once.latest, d.localDate(items[i]))
    {
      BoundsAreReached(history.earliest, history.latest, d, items, |items|, i);
    }
    BoundsStay(once.earliest, once.latest, d, items, |items|);
  }

  // ---- growth and duplicates ----

  predicate MayRise(before: DuplicateStatus, after: DuplicateStatus) {
    after == before || (before.NotDuplicate? && after.Possible?)
  }

  ghost predicate OnlyRises(before: map<string, Row>, after: map<string, Row>) {
    forall id :: id in before ==> id in after && MayRise(before[id].duplicate, after[id].duplicate)
  }

  /** Tables after an import with the given counts. */
  ghost predicate Grown(before: Tables, after: Tables, counts: Counts) {
    && |after.rows| == |before.rows| + counts.inserted
    && |after.snapshots| == |before.snapshots| + counts.snapshots
    && OnlyRises(before.rows, after.rows)
    && (forall id :: id in before.rows && id in after.rows ==> after.rows[id].account == before.rows[id].account)
  }

  lemma GrownOn(a: Tables, b: Tables, c: Tables, first: Counts, second: Counts)
    requires Grown(a, b, first) && Grown(b, c, second)
    ensures Grown(a, c, Add(first, second))
  {
    forall id | id in a.rows
      ensures id in c.rows && MayRise(a.rows[id].duplicate, c.rows[id].duplicate)
              && c.rows[id].account == a.rows[id].account
    {
      assert id in b.rows;
    }
  }

  lemma {:induction false} FoldGrows(turn: (Tables, Item) -> Imported, t: Tables, items: seq<Item>, n: nat)
    requires n <= |items|
    requires forall u, item {:trigger turn(u, item)} :: Grown(u, turn(u, item).tables, turn(u, item).counts)
    ensures Grown(t, Fold(turn, t, items, n).tables, Fold(turn, t, items, n).counts)
  {
    if n == 0 {
    } else {
      FoldGrows(turn, t, items, n - 1);
      var before := Fold(turn, t, items, n - 1);
      var step := turn(before.tables, items[n - 1]);
      GrownOn(t, before.tables, step.tables, before.counts, step.counts);
    }
  }

  /** A page adds exactly the rows and snapshots it counts; rows keep their account and are at most newly suspected. */
  lemma PageGrows(d: Derivations, t: Tables, account: nat, items: seq<Item>, n: nat, observedAt: int)
    requires n <= |items|
    ensures Grown(t, ImportItems(d, t, account, items, n, observedAt).tables,
                  ImportItems(d, t, account, items, n, observedAt).counts)
  {
    var turn := Turn(d, account, observedAt);
    forall u, item
      ensures Grown(u, turn(u, item).tables, turn(u, item).counts)
    {
      ItemGrows(d, u, account, item, IdOf(item), observedAt);
    }
    FoldGrows(turn, t, items, n);
  }

  /** An insertion: earlier rows are at most newly suspected. */
  lemma InsertGrows(d: Derivations, t: Tables, account: nat, item: Item, id: string, observedAt: int)
    requires id !in t.rows
    ensures ImportItem(d, t, account, item, id, observedAt).tables.rows.Keys == t.rows.Keys + {id}
    ensures Grown(t, ImportItem(d, t, account, item, id, observedAt).tables,
                  ImportItem(d, t, account, item, id, observedAt).counts)
  {
    var r := ImportItem(d, t, account, item, id, observedAt);
    assert r.tables.rows == SuspectAll(t.rows, account, d.fingerprint(item), observedAt)[id := r.tables.rows[id]];
  }

  /** An update: the row keeps its account and its duplicate status, and the other rows are untouched. */
  lemma UpdateGrows(d: Derivations, t: Tables, account: nat, item: Item, id: string, observedAt: int)
    requires id in t.rows
    ensures ImportItem(d, t, account, item, id, observedAt).tables.rows.Keys == t.rows.Keys + {id}
    ensures Grown(t, ImportItem(d, t, account, item, id, observedAt).tables,
                  ImportItem(d, t, account, item, id, observedAt).counts)
  {
    var r := ImportItem(d, t, account, item, id, observedAt);
    var row := r.tables.rows[id];
    assert r.tables.rows == t.rows[id := row];
    assert row.duplicate == t.rows[id].duplicate && row.account == t.rows[id].account;
  }

  /** One item adds its row exactly when it was unknown. */
  lemma ItemGrows(d: Derivations, t: Tables, account: nat, item: Item, id: string, observedAt: int)
    ensures ImportItem(d, t, account, item, id, observedAt).tables.rows.Keys == t.rows.Keys + {id}
    ensures Grown(t, ImportItem(d, t, account, item, id, observedAt).tables,
                  ImportItem(d, t, account, item, id, observedAt).counts)
  {
    if id in t.rows {
      UpdateGrows(d, t, account, item, id, observedAt);
    } else {
      InsertGrows(d, t, account, item, id, observedAt);
    }
  }

  predicate Holds(row: Row, account: nat, fingerprint: string) {
    row.account == account && row.columns.fingerprint == fingerprint
  }

  /**
   A first import suspects a duplicate exactly when the account already holds the fingerprint, and then
   suspects all its holders.
   */
  lemma NewRowSuspicion(d: Derivations, t: Tables, account: nat, item: Item, id: string, observedAt: int)
    requires id !in t.rows
    ensures var after := ImportItem(d, t, account, item, id, observedAt).tables.rows;
            && (after[id].duplicate.Possible? <==> Collides(t.rows, account, d.fingerprint(item)))
            && (forall other :: other in t.rows && Holds(t.rows[other], account, d.fingerprint(item)) ==>
                  !after[other].duplicate.NotDuplicate?)
            && (forall other :: other in t.rows && after[other] != t.rows[other] ==>
                Holds(t.rows[other], account, d.fingerprint(item)))
  {
  }

  // ---- revisions ----

  /** With a hash that tells texts apart, a revision is written exactly when a compared column differs. */
  lemma RevisionMeansChange(textHash: string -> nat, existing: Columns, incoming: Columns)
    requires forall s, t {:trigger textHash(s), textHash(t)} :: textHash(s) == textHash(t) ==> s == t
    ensures ChangedFields(textHash, existing, incoming) == {} <==>
            && existing.(rest := incoming.rest) == incoming
            && forall field :: field in incoming.rest ==> ValueAt(existing.rest, field) == incoming.rest[field]
  {
    var changed := ChangedFields(textHash, existing, incoming);
    if changed == {} {
      assert "status" !in changed && "deletedAt" !in changed && "systemFinancialRole" !in changed;
      assert "dedupeFingerprint" !in changed && "transactionLocalDate" !in changed;
      forall field | field in incoming.rest
        ensures ValueAt(existing.rest, field) == incoming.rest[field]
      {
        assert field !in changed;
      }
    }
  }
}
