/**
 Listing transactions newest first by pages.  Each page asks for one row more than it returns and
 continues strictly below its last row, on whatever the table holds by then.
 */
module KeysetPaging {
  import opened Outcomes
  import opened Sorting

  datatype Row = Row(id: nat, date: int, account: nat, category: Option<nat>, status: string, deleted: bool)

  datatype Key = Key(date: int, id: nat)

  datatype Filter = Filter(from: int, to: int, account: Option<nat>, category: Option<nat>, status: Option<string>)

  datatype Page = Page(items: seq<Row>, nextCursor: Option<Key>)

  datatype ListError = FromAfterTo | BadLimit

  function KeyOf(row: Row): Key {
    Key(row.date, row.id)
  }

  predicate Below(a: Key, b: Key) {
    a.date < b.date || (a.date == b.date && a.id < b.id)
  }

  predicate Newer(a: Row, b: Row) {
    Below(KeyOf(b), KeyOf(a))
  }

  /** The fixed conditions, and the filters that are given. */
  predicate Matches(filter: Filter, row: Row) {
    && filter.from <= row.date <= filter.to && !row.deleted && row.status != "DELETED"
    && (filter.account.Some? ==> row.account == filter.account.value)
    && (filter.category.Some? ==> row.category == filter.category)
    && (filter.status.Some? ==> row.status == filter.status.value)
  }

  predicate Selected(filter: Filter, cursor: Option<Key>, row: Row) {
    Matches(filter, row) && (cursor.Some? ==> Below(KeyOf(row), cursor.value))
  }

  function Select(table: seq<Row>, filter: Filter, cursor: Option<Key>): seq<Row> {
    if table == [] then []
    else (if Selected(filter, cursor, table[0]) then [table[0]] else []) + Select(table[1..], filter, cursor)
  }

  /** Every selected row, newest first. */
  function Ordered(table: seq<Row>, filter: Filter, cursor: Option<Key>): seq<Row> {
    Sort(Select(table, filter, cursor), Newer)
  }

  /** The primary key. */
  predicate DistinctIds(table: seq<Row>) {
    forall i, j :: 0 <= i < j < |table| ==> table[i].id != table[j].id
  }

  function FirstRows(rows: seq<Row>, n: nat): seq<Row> {
    if |rows| <= n then rows else rows[..n]
  }

  /** What one request returns. */
  function PageOf(table: seq<Row>, filter: Filter, cursor: Option<Key>, limit: nat): Page
    requires limit > 0
  {
    var rows := Ordered(table, filter, cursor);
    if |rows| > limit then Page(rows[..limit], Some(KeyOf(rows[limit - 1]))) else Page(rows, None)
  }

  /** TransactionApiRepository.list: fetches limit + 1 rows and drops the probe. */
  method List(table: seq<Row>, filter: Filter, cursor: Option<Key>, limit: int) returns (r: Result<Page, ListError>)
    ensures r.Ok? <==> filter.from <= filter.to && 1 <= limit <= 100
    ensures r.Ok? ==> r.value == PageOf(table, filter, cursor, limit)
  {
    if filter.from > filter.to {
      return Err(FromAfterTo);
    }
    if limit < 1 || limit > 100 {
      return Err(BadLimit);
    }
    var fetched := FirstRows(Ordered(table, filter, cursor), limit + 1);
    var hasNext := |fetched| > limit;
    var rows := if hasNext then fetched[..limit] else fetched;
    r := Ok(Page(rows, if hasNext && rows != [] then Some(KeyOf(rows[|rows| - 1])) else None));
  }

  // ---- one query ----

  lemma NewerIsStrict()
    ensures StrictOrder(Newer)
  {
  }

  lemma {:induction false} SelectMeans(table: seq<Row>, filter: Filter, cursor: Option<Key>)
    ensures forall row :: row in Select(table, filter, cursor) <==> row in table && Selected(filter, cursor, row)
  {
    if table != [] {
      SelectMeans(table[1..], filter, cursor);
      assert forall row :: row in table <==> row == table[0] || row in table[1..];
    }
  }

  lemma {:induction false} SelectHasNoTies(table: seq<Row>, filter: Filter, cursor: Option<Key>)
    requires DistinctIds(table)
    ensures NoTies(Select(table, filter, cursor), Newer)
  {
    if table != [] {
      var rest := Select(table[1..], filter, cursor);
      SelectHasNoTies(table[1..], filter, cursor);
      SelectMeans(table[1..], filter, cursor);
      forall j | 0 <= j < |rest|
        ensures rest[j].id != table[0].id
      {
        assert rest[j] in rest;
        var i :| 0 <= i < |table[1..]| && table[1..][i] == rest[j];
        assert table[i + 1] == rest[j];
      }
    }
  }

  lemma OrderedMeans(table: seq<Row>, filter: Filter, cursor: Option<Key>)
    requires DistinctIds(table)
    ensures Sorted(Ordered(table, filter, cursor), Newer)
    ensures forall row :: row in Ordered(table, filter, cursor) <==> row in table && Selected(filter, cursor, row)
  {
    var selected := Select(table, filter, cursor);
    NewerIsStrict();
    SelectMeans(table, filter, cursor);
    SelectHasNoTies(table, filter, cursor);
    SortSorts(selected, Newer);
    SortKeeps(selected, Newer);
    SameMembers(Sort(selected, Newer), selected);
  }

  /** A page: selected rows in strictly descending order; it is the last exactly when nothing selected lies beyond. */
  lemma PageMeans(table: seq<Row>, filter: Filter, cursor: Option<Key>, limit: nat)
    requires DistinctIds(table) && limit > 0
    ensures var page := PageOf(table, filter, cursor, limit);
            && |page.items| <= limit && Sorted(page.items, Newer)
            && (forall row :: row in page.items ==> row in table && Selected(filter, cursor, row))
            && (page.nextCursor.Some? ==>
                page.items != [] && page.nextCursor == Some(KeyOf(page.items[|page.items| - 1])))
            && (forall row :: row in table && Selected(filter, cursor, row) && row !in page.items ==>
                  page.nextCursor.Some? && Below(KeyOf(row), page.nextCursor.value))
  {
    OrderedMeans(table, filter, cursor);
    var rows := Ordered(table, filter, cursor);
    var page := PageOf(table, filter, cursor, limit);
    forall row | row in table && Selected(filter, cursor, row) && row !in page.items
      ensures page.nextCursor.Some? && Below(KeyOf(row), page.nextCursor.value)
    {
      assert row in rows;
      var k :| 0 <= k < |rows| && rows[k] == row;
      assert k >= limit && Newer(rows[limit - 1], rows[k]);
    }
  }

  // ---- a traversal ----

  /** One request: the table as it is by then, and its limit. */
  datatype Request = Request(table: seq<Row>, limit: nat)

  predicate Valid(requests: seq<Request>) {
    forall i :: 0 <= i < |requests| ==> DistinctIds(requests[i].table) && requests[i].limit > 0
  }

  /** The rows returned by following nextCursor from `cursor`. */
  function Returned(requests: seq<Request>, filter: Filter, cursor: Option<Key>): seq<Row>
    requires Valid(requests)
  {
    if requests == [] then []
    else
      var page := PageOf(requests[0].table, filter, cursor, requests[0].limit);
      if page.nextCursor.None? then page.items
      else page.items + Returned(requests[1..], filter, page.nextCursor)
  }

  /** Some page ended the traversal. */
  predicate Ends(requests: seq<Request>, filter: Filter, cursor: Option<Key>)
    requires Valid(requests)
  {
    requests != [] &&
    var page := PageOf(requests[0].table, filter, cursor, requests[0].limit);
    page.nextCursor.None? || Ends(requests[1..], filter, page.nextCursor)
  }

  /** Whatever happens to the table between pages, keys come back strictly descending, so no key comes back twice. */
  lemma {:induction false} ReturnedDescends(requests: seq<Request>, filter: Filter, cursor: Option<Key>)
    requires Valid(requests)
    ensures Sorted(Returned(requests, filter, cursor), Newer)
    ensures forall row :: row in Returned(requests, filter, cursor) ==> Selected(filter, cursor, row)
  {
    if requests != [] {
      var page := PageOf(requests[0].table, filter, cursor, requests[0].limit);
      PageMeans(requests[0].table, filter, cursor, requests[0].limit);
      if page.nextCursor.Some? {
        ReturnedDescends(requests[1..], filter, page.nextCursor);
        JoinSorted(page.items, Returned(requests[1..], filter, page.nextCursor), filter, page.nextCursor);
        SelectedFurther(filter, cursor, page);
      }
    }
  }

  lemma JoinSorted(a: seq<Row>, b: seq<Row>, filter: Filter, cursor: Option<Key>)
    requires a != [] && cursor == Some(KeyOf(a[|a| - 1])) && Sorted(a, Newer) && Sorted(b, Newer)
    requires forall row :: row in b ==> Selected(filter, cursor, row)
    ensures Sorted(a + b, Newer)
  {
    forall i, j | 0 <= i < j < |a + b|
      ensures Newer((a + b)[i], (a + b)[j])
    {
      if i < |a| <= j {
        assert b[j - |a|] in b;
        assert i < |a| - 1 ==> Newer(a[i], a[|a| - 1]);
      }
    }
  }

  lemma SelectedFurther(filter: Filter, cursor: Option<Key>, page: Page)
    requires page.nextCursor.Some? && page.items != [] && page.nextCursor == Some(KeyOf(page.items[|page.items| - 1]))
    requires forall row :: row in page.items ==> Selected(filter, cursor, row)
    ensures forall row :: Selected(filter, page.nextCursor, row) ==> Selected(filter, cursor, row)
  {
    assert page.items[|page.items| - 1] in page.items;
  }

  /** In every table there is a matching row with this key. */
  predicate Throughout(requests: seq<Request>, filter: Filter, key: Key) {
    forall i :: 0 <= i < |requests| ==> PresentWithKey(requests[i].table, filter, key)
  }

  predicate PresentWithKey(table: seq<Row>, filter: Filter, key: Key) {
    exists k :: 0 <= k < |table| && KeyOf(table[k]) == key && Matches(filter, table[k])
  }

  predicate HasKey(rows: seq<Row>, key: Key) {
    exists k :: 0 <= k < |rows| && KeyOf(rows[k]) == key
  }

  lemma KeyOnPage(table: seq<Row>, filter: Filter, cursor: Option<Key>, limit: nat, key: Key)
    requires DistinctIds(table) && limit > 0 && PresentWithKey(table, filter, key)
    requires cursor.Some? ==> Below(key, cursor.value)
    ensures var page := PageOf(table, filter, cursor, limit);
            HasKey(page.items, key) || (page.nextCursor.Some? && Below(key, page.nextCursor.value))
  {
    PageMeans(table, filter, cursor, limit);
    var page := PageOf(table, filter, cursor, limit);
    var k :| 0 <= k < |table| && KeyOf(table[k]) == key && Matches(filter, table[k]);
    if table[k] in page.items {
      var i :| 0 <= i < |page.items| && page.items[i] == table[k];
    }
  }

  lemma HasKeyJoin(a: seq<Row>, b: seq<Row>, key: Key)
    requires HasKey(a, key) || HasKey(b, key)
    ensures HasKey(a + b, key)
  {
    if HasKey(a, key) {
      var i :| 0 <= i < |a| && KeyOf(a[i]) == key;
      assert (a + b)[i] == a[i];
    } else {
      var i :| 0 <= i < |b| && KeyOf(b[i]) == key;
      assert (a + b)[|a| + i] == b[i];
    }
  }

  /** Once the traversal ends, every row that was there throughout has been returned. */
  lemma {:induction false} ReturnedIsComplete(requests: seq<Request>, filter: Filter, cursor: Option<Key>, key: Key)
    requires Valid(requests) && Ends(requests, filter, cursor) && Throughout(requests, filter, key)
    requires cursor.Some? ==> Below(key, cursor.value)
    ensures HasKey(Returned(requests, filter, cursor), key)
  {
    var page := PageOf(requests[0].table, filter, cursor, requests[0].limit);
    assert PresentWithKey(requests[0].table, filter, key);
    KeyOnPage(requests[0].table, filter, cursor, requests[0].limit, key);
    if page.nextCursor.Some? {
      var rest := Returned(requests[1..], filter, page.nextCursor);
      if !HasKey(page.items, key) {
        ReturnedIsComplete(requests[1..], filter, page.nextCursor, key);
      }
      HasKeyJoin(page.items, rest, key);
    }
  }

  /** A row comes back twice only if its date changed in between. */
  lemma NoRowRepeats(requests: seq<Request>, filter: Filter, i: nat, j: nat)
    requires Valid(requests)
    requires i < j < |Returned(requests, filter, None)|
    ensures var rows := Returned(requests, filter, None);
            rows[i].id == rows[j].id ==> rows[i].date > rows[j].date
  {
    ReturnedDescends(requests, filter, None);
    var rows := Returned(requests, filter, None);
    assert Newer(rows[i], rows[j]);
  }

  // ---- a table that does not change ----

  /** After the first page, what remains is the rest of the ordered rows. */
  lemma RestAfterPage(table: seq<Row>, filter: Filter, cursor: Option<Key>, limit: nat)
    requires DistinctIds(table) && 0 < limit < |Ordered(table, filter, cursor)|
    ensures Ordered(table, filter, Some(KeyOf(Ordered(table, filter, cursor)[limit - 1])))
            == Ordered(table, filter, cursor)[limit..]
  {
    var rows := Ordered(table, filter, cursor);
    var next := KeyOf(rows[limit - 1]);
    var rest := Ordered(table, filter, Some(next));
    OrderedMeans(table, filter, cursor);
    OrderedMeans(table, filter, Some(next));
    NewerIsStrict();
    assert rows[limit - 1] in rows;
    forall row
      ensures row in rest <==> row in rows[limit..]
    {
      if row in rest {
        assert Selected(filter, cursor, row);
        var k :| 0 <= k < |rows| && rows[k] == row;
        assert k < limit - 1 ==> Newer(rows[k], rows[limit - 1]);
        assert rows[limit..][k - limit] == row;
      }
      if row in rows[limit..] {
        var k :| 0 <= k < |rows[limit..]| && rows[limit..][k] == row;
        assert Newer(rows[limit - 1], rows[limit + k]);
        assert rows[limit + k] in rows;
      }
    }
    SortedSetUnique(rest, rows[limit..]);
  }

  lemma {:induction false} SortedOccursOnce(s: seq<Row>, x: Row)
    requires Sorted(s, Newer)
    ensures multiset(s)[x] == if x in s then 1 else 0
  {
    NewerIsStrict();
    if s != [] {
      TailMultiset(s);
      SortedOccursOnce(s[1..], x);
      assert x in s[1..] ==> Newer(s[0], x);
      assert s == [s[0]] + s[1..];
    }
  }

  lemma SortedSetUnique(a: seq<Row>, b: seq<Row>)
    requires Sorted(a, Newer) && Sorted(b, Newer) && forall row :: row in a <==> row in b
    ensures a == b
  {
    NewerIsStrict();
    forall x
      ensures multiset(a)[x] == multiset(b)[x]
    {
      SortedOccursOnce(a, x);
      SortedOccursOnce(b, x);
    }
    assert multiset(a) == multiset(b);
    SortedUnique(a, b, Newer);
  }

  function Repeated(table: seq<Row>, limit: nat, pages: nat): seq<Request> {
    if pages == 0 then [] else [Request(table, limit)] + Repeated(table, limit, pages - 1)
  }

  lemma {:induction false} RepeatedIsValid(table: seq<Row>, limit: nat, pages: nat)
    requires DistinctIds(table) && limit > 0
    ensures Valid(Repeated(table, limit, pages))
  {
    if pages > 0 {
      RepeatedIsValid(table, limit, pages - 1);
    }
  }

  /** On a fixed table the traversal ends after enough pages and returns every matching row exactly once, in order. */
  lemma {:induction false} FixedTable(table: seq<Row>, filter: Filter, cursor: Option<Key>, limit: nat, pages: nat)
    requires DistinctIds(table) && limit > 0 && pages > 0 && |Ordered(table, filter, cursor)| <= pages * limit
    ensures Valid(Repeated(table, limit, pages))
    ensures Ends(Repeated(table, limit, pages), filter, cursor)
    ensures Returned(Repeated(table, limit, pages), filter, cursor) == Ordered(table, filter, cursor)
    decreases pages
  {
    RepeatedIsValid(table, limit, pages);
    var rows := Ordered(table, filter, cursor);
    assert Repeated(table, limit, pages)[1..] == Repeated(table, limit, pages - 1);
    if |rows| > limit {
      RestAfterPage(table, filter, cursor, limit);
      assert pages == 1 ==> pages * limit == limit;
      assert pages * limit == limit + (pages - 1) * limit;
      FixedTable(table, filter, Some(KeyOf(rows[limit - 1])), limit, pages - 1);
      assert rows == rows[..limit] + rows[limit..];
    }
  }
}
