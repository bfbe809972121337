/**
 Keyset pagination of the notification list: newest first by (created_at, id), one
 row more than the page fetched to learn whether there is a next page. Cursor
 encoding is the identity here, and instants are integers.
 */
module Pagination {
  import opened Wrappers

  datatype Status = Queued | Sent | Errored | Cancelled | UnknownStatus | Unsupported(text: string)

  datatype Row = Row(id: nat, createdAt: int, tenant: string, status: Status, text: string)

  /** The primary key column is the map key and never zero. */
  type Table = map<nat, Row>

  predicate ValidTable(table: Table) {
    0 !in table && forall id :: id in table ==> table[id].id == id
  }

  datatype Key = Key(createdAt: int, id: nat)

  function KeyOf(r: Row): Key {
    Key(r.createdAt, r.id)
  }

  /** `a` is listed before `b`. */
  predicate Newer(a: Key, b: Key) {
    a.createdAt > b.createdAt || (a.createdAt == b.createdAt && a.id > b.id)
  }

  // ---------------------------------------------------------------------------
  // Filters
  // ---------------------------------------------------------------------------

  const MAX_LIMIT := 100

  /** `matchesSearch` is the LIKE condition; an empty tenant or status list filters nothing. */
  datatype Filter = Filter(tenant: string, statuses: seq<Status>, matchesSearch: Row -> bool)

  /** The supported statuses without repetitions, in order of first occurrence. */
  function Normalized(statuses: seq<Status>): seq<Status> {
    if statuses == [] then []
    else
      var front, last := Normalized(statuses[..|statuses| - 1]), statuses[|statuses| - 1];
      if last.Unsupported? || last in front then front else front + [last]
  }

  method NormalizedStatuses(statuses: seq<Status>) returns (normalized: seq<Status>)
    ensures normalized == Normalized(statuses)
  {
    normalized := [];
    var seen: set<Status> := {};
    var i := 0;
    while i < |statuses|
      invariant i <= |statuses|
      invariant normalized == Normalized(statuses[..i])
      invariant forall s :: s in seen <==> s in normalized
    {
      assert statuses[..i + 1][..i] == statuses[..i];
      var status := statuses[i];
      i := i + 1;
      if status.Unsupported? {
        continue;
      }
      if status in seen {
        continue;
      }
      seen := seen + {status};
      normalized := normalized + [status];
    }
    assert statuses[..i] == statuses;
  }

  /** Normalising keeps exactly the supported statuses, each once. */
  lemma {:induction false} NormalizedMeaning(statuses: seq<Status>)
    ensures var n := Normalized(statuses);
            && (forall s :: s in n <==> s in statuses && !s.Unsupported?)
            && (forall i, j :: 0 <= i < j < |n| ==> n[i] != n[j])
  {
    if statuses != [] {
      var front, last := statuses[..|statuses| - 1], statuses[|statuses| - 1];
      NormalizedMeaning(front);
      assert statuses == front + [last];
    }
  }

  predicate Matches(f: Filter, r: Row) {
    && (f.tenant == "" || r.tenant == f.tenant)
    && (Normalized(f.statuses) == [] || r.status in Normalized(f.statuses))
    && f.matchesSearch(r)
  }

  /** The rows a query selects: those matching, beyond the cursor if there is one. */
  function Selected(table: Table, f: Filter, cursor: Option<Key>): set<Row> {
    set id | id in table && Matches(f, table[id]) && Beyond(cursor, KeyOf(table[id])) :: table[id]
  }

  /** The cursor condition: strictly older, or as old with a smaller id. */
  predicate Beyond(cursor: Option<Key>, k: Key) {
    cursor.None? || k.createdAt < cursor.value.createdAt ||
    (k.createdAt == cursor.value.createdAt && k.id < cursor.value.id)
  }

  lemma BeyondIsNewer(cursor: Key, k: Key)
    ensures Beyond(Some(cursor), k) <==> Newer(cursor, k)
  {
  }

  // ---------------------------------------------------------------------------
  // Listings
  // ---------------------------------------------------------------------------

  predicate Descending(list: seq<Row>) {
    forall i, j :: 0 <= i < j < |list| ==> Newer(KeyOf(list[i]), KeyOf(list[j]))
  }

  function Elements(list: seq<Row>): set<Row> {
    set r | r in list
  }

  /** Different rows have different ids. */
  predicate DistinctIds(rows: set<Row>) {
    forall a, b :: a in rows && b in rows && a.id == b.id ==> a == b
  }

  lemma {:induction false} NewestExists(rows: set<Row>) returns (top: Row)
    requires rows != {} && DistinctIds(rows)
    ensures IsNewest(rows, top)
    decreases |rows|
  {
    top :| top in rows;
    var rest := rows - {top};
    assert forall r :: r in rows && r != top ==> r in rest;
    if rest != {} {
      assert |rest| < |rows|;
      var other := NewestExists(rest);
      assert other.id != top.id;
      var newer := if Newer(KeyOf(other), KeyOf(top)) then other else top;
      forall r | r in rows && r != newer
        ensures Newer(KeyOf(newer), KeyOf(r))
      {
        assert r in rest && r != other ==> Newer(KeyOf(other), KeyOf(r));
      }
      top := newer;
    }
  }

  predicate IsNewest(rows: set<Row>, top: Row) {
    top in rows && forall r :: r in rows && r != top ==> Newer(KeyOf(top), KeyOf(r))
  }

  ghost function Newest(rows: set<Row>): (top: Row)
    requires rows != {} && DistinctIds(rows)
    ensures IsNewest(rows, top)
  {
    assert exists top :: IsNewest(rows, top) by {
      var top := NewestExists(rows);
      assert IsNewest(rows, top);
    }
    var top :| IsNewest(rows, top);
    top
  }

  lemma NewestFirst(rows: set<Row>, top: Row, rest: seq<Row>)
    requires IsNewest(rows, top) && Descending(rest) && Elements(rest) == rows - {top}
    ensures Descending([top] + rest) && Elements([top] + rest) == rows
  {
    var list := [top] + rest;
    forall j | 0 <= j < |rest|
      ensures Newer(KeyOf(top), KeyOf(rest[j]))
    {
      assert rest[j] in Elements(rest);
    }
    forall r
      ensures r in Elements(list) <==> r in rows
    {
      assert r in list <==> r == top || r in rest;
      assert r in rest <==> r in Elements(rest);
    }
  }

  /** The rows newest first, as the database returns them. */
  ghost function Listing(rows: set<Row>): (list: seq<Row>)
    requires DistinctIds(rows)
    ensures Descending(list) && Elements(list) == rows
    decreases |rows|
  {
    if rows == {} then []
    else
      var top := Newest(rows);
      var rest := Listing(rows - {top});
      NewestFirst(rows, top, rest);
      [top] + rest
  }

  /** A set of rows has only one descending listing. */
  lemma {:induction false} ListingUnique(a: seq<Row>, b: seq<Row>)
    requires Descending(a) && Descending(b) && Elements(a) == Elements(b)
    ensures a == b
  {
    if a == [] {
      assert forall i :: 0 <= i < |b| ==> b[i] in Elements(b);
    } else {
      assert a[0] in Elements(a) && b != [];
      assert b[0] in Elements(b) && b[0] in a && a[0] in b;
      assert a[0] == b[0];
      TailElements(a);
      TailElements(b);
      ListingUnique(a[1..], b[1..]);
      assert a == [a[0]] + a[1..] && b == [b[0]] + b[1..];
    }
  }

  lemma TailElements(list: seq<Row>)
    requires Descending(list) && list != []
    ensures Elements(list[1..]) == Elements(list) - {list[0]}
  {
    assert list == [list[0]] + list[1..];
    forall r | r in list[1..]
      ensures r != list[0]
    {
      var i :| 0 <= i < |list[1..]| && list[1..][i] == r;
      assert Newer(KeyOf(list[0]), KeyOf(list[i + 1]));
    }
  }

  lemma SelectedDistinct(table: Table, f: Filter, cursor: Option<Key>)
    requires ValidTable(table)
    ensures DistinctIds(Selected(table, f, cursor))
  {
  }

  // ---------------------------------------------------------------------------
  // Pages
  // ---------------------------------------------------------------------------

  datatype PageError = InvalidLimit | InvalidCursor

  datatype Request = Request(limit: nat, cursor: Option<Key>)

  function NewRequest(limit: int, cursor: Option<Key>): (r: Result<Request, PageError>)
    ensures r.Ok? <==> 1 <= limit <= 100
    ensures r.Ok? ==> r.value.limit == limit && r.value.cursor == cursor
  {
    if limit < 1 || limit > MAX_LIMIT then Err(InvalidLimit) else Ok(Request(limit, cursor))
  }

  datatype Page = Page(rows: seq<Row>, next: Option<Key>)

  function NewCursor(createdAt: int, id: nat): Result<Key, PageError> {
    if id == 0 then Err(InvalidCursor) else Ok(Key(createdAt, id))
  }

  function PageFromRecords(records: seq<Row>, limit: nat): Result<Page, PageError>
    requires 0 < limit
  {
    if |records| <= limit then Ok(Page(records, None))
    else
      var last := records[limit - 1];
      match NewCursor(last.createdAt, last.id)
      case Err(e) => Err(e)
      case Ok(cursor) => Ok(Page(records[..limit], Some(cursor)))
  }

  function Take(list: seq<Row>, n: nat): seq<Row> {
    if |list| <= n then list else list[..n]
  }

  /** One page request against the table as it is at that moment. */
  ghost function ListPage(table: Table, f: Filter, request: Request): Result<Page, PageError>
    requires ValidTable(table) && 0 < request.limit
  {
    SelectedDistinct(table, f, request.cursor);
    PageFromRecords(Take(Listing(Selected(table, f, request.cursor)), request.limit + 1), request.limit)
  }

  /** The unpaged list. */
  ghost function ListAll(table: Table, f: Filter): seq<Row>
    requires ValidTable(table)
  {
    SelectedDistinct(table, f, None);
    Listing(Selected(table, f, None))
  }

  /** A page is a prefix of what is selected; a next cursor is its last row's key and something follows. */
  lemma PageMeaning(table: Table, f: Filter, request: Request)
    requires ValidTable(table) && 0 < request.limit
    ensures ListPage(table, f, request).Ok?
    ensures DistinctIds(Selected(table, f, request.cursor))
    ensures var page := ListPage(table, f, request).value;
            var list := Listing(Selected(table, f, request.cursor));
            && page.rows <= list
            && (page.next.None? ==> page.rows == list && |list| <= request.limit)
            && (page.next.Some? ==>
                  && |page.rows| == request.limit < |list|
                  && page.next == Some(KeyOf(page.rows[|page.rows| - 1])))
  {
    SelectedDistinct(table, f, request.cursor);
    var list := Listing(Selected(table, f, request.cursor));
    if |list| > request.limit {
      assert list[request.limit - 1] in Elements(list);
    }
  }

  // ---------------------------------------------------------------------------
  // Following cursors on an unchanged table
  // ---------------------------------------------------------------------------

  /** What is selected beyond a page's cursor is what the page left out. */
  lemma BeyondPage(table: Table, f: Filter, cursor: Option<Key>, list: seq<Row>, n: nat)
    requires ValidTable(table) && Descending(list) && Elements(list) == Selected(table, f, cursor)
    requires 0 < n < |list|
    ensures Elements(list[n..]) == Selected(table, f, Some(KeyOf(list[n - 1])))
    ensures Selected(table, f, Some(KeyOf(list[n - 1]))) < Selected(table, f, cursor)
  {
    var last := list[n - 1];
    var beyond := Selected(table, f, Some(KeyOf(last)));
    assert last in Elements(list) && last !in beyond;
    forall r
      ensures r in Elements(list[n..]) <==> r in beyond
    {
      if r in beyond {
        assert Newer(KeyOf(last), KeyOf(r));
        assert last in Selected(table, f, cursor);
        assert Beyond(cursor, KeyOf(r));
        assert r in Selected(table, f, cursor);
        var i :| 0 <= i < |list| && list[i] == r;
        assert i >= n;
        assert list[n..][i - n] == r;
      }
      if r in list[n..] {
        var i :| 0 <= i < |list[n..]| && list[n..][i] == r;
        assert list[n + i] == r;
        assert r in Elements(list);
        assert Newer(KeyOf(last), KeyOf(r));
      }
    }
    assert beyond <= Selected(table, f, cursor) by {
      forall r | r in beyond
        ensures r in Selected(table, f, cursor)
      {
        assert r in Elements(list[n..]);
      }
    }
  }

  lemma NextSelectsLess(table: Table, f: Filter, request: Request)
    requires ValidTable(table) && 0 < request.limit
    ensures ListPage(table, f, request).Ok?
    ensures var next := ListPage(table, f, request).value.next;
            next.Some? ==> |Selected(table, f, next)| < |Selected(table, f, request.cursor)|
  {
    PageMeaning(table, f, request);
    var page := ListPage(table, f, request).value;
    if page.next.Some? {
      var list := Listing(Selected(table, f, request.cursor));
      BeyondPage(table, f, request.cursor, list, request.limit);
      SmallerSubset(Selected(table, f, page.next), Selected(table, f, request.cursor));
    }
  }

  lemma SmallerSubset(a: set<Row>, b: set<Row>)
    requires a < b
    ensures |a| < |b|
  {
    var x :| x in b && x !in a;
    assert b == a + (b - a) && |b| == |a| + |b - a|;
    assert x in b - a;
  }

  /** All pages from a cursor on, concatenated. Terminates: each page leaves less to select. */
  ghost function Walk(table: Table, f: Filter, request: Request): seq<Row>
    requires ValidTable(table) && 0 < request.limit
    decreases |Selected(table, f, request.cursor)|
  {
    NextSelectsLess(table, f, request);
    var page := ListPage(table, f, request).value;
    match page.next
    case None => page.rows
    case Some(_) => page.rows + Walk(table, f, request.(cursor := page.next))
  }

  lemma ListingSplits(list: seq<Row>, n: nat, rest: seq<Row>)
    requires Descending(list) && n <= |list|
    requires Descending(rest) && Elements(rest) == Elements(list[n..])
    ensures list[..n] + rest == list
  {
    ListingUnique(rest, list[n..]);
    assert list == list[..n] + list[n..];
  }

  /** A full page followed by the listing beyond its cursor is the whole listing. */
  lemma PageThenRest(table: Table, f: Filter, cursor: Option<Key>, list: seq<Row>, n: nat, next: Option<Key>)
    requires ValidTable(table) && Descending(list) && Elements(list) == Selected(table, f, cursor)
    requires 0 < n < |list| && next == Some(KeyOf(list[n - 1]))
    ensures DistinctIds(Selected(table, f, next))
    ensures list[..n] + Listing(Selected(table, f, next)) == list
  {
    SelectedDistinct(table, f, next);
    BeyondPage(table, f, cursor, list, n);
    ListingSplits(list, n, Listing(Selected(table, f, next)));
  }

  lemma WalkUnfolds(table: Table, f: Filter, request: Request, page: Page)
    requires ValidTable(table) && 0 < request.limit && ListPage(table, f, request) == Ok(page)
    ensures Walk(table, f, request) ==
            page.rows + (if page.next.None? then [] else Walk(table, f, request.(cursor := page.next)))
  {
  }

  lemma {:induction false} WalkIsListing(table: Table, f: Filter, request: Request)
    requires ValidTable(table) && 0 < request.limit
    ensures DistinctIds(Selected(table, f, request.cursor))
    ensures Walk(table, f, request) == Listing(Selected(table, f, request.cursor))
    decreases |Selected(table, f, request.cursor)|
  {
    NextSelectsLess(table, f, request);
    PageMeaning(table, f, request);
    var page := ListPage(table, f, request).value;
    var list := Listing(Selected(table, f, request.cursor));
    WalkUnfolds(table, f, request, page);
    if page.next.Some? {
      var rest := request.(cursor := page.next);
      WalkIsListing(table, f, rest);
      PageCompleted(table, f, request.cursor, list, page, Walk(table, f, rest));
    }
  }

  lemma PageCompleted(table: Table, f: Filter, cursor: Option<Key>, list: seq<Row>, page: Page, later: seq<Row>)
    requires ValidTable(table) && Descending(list) && Elements(list) == Selected(table, f, cursor)
    requires page.rows <= list && 0 < |page.rows| < |list|
    requires page.next == Some(KeyOf(page.rows[|page.rows| - 1]))
    requires DistinctIds(Selected(table, f, page.next)) && later == Listing(Selected(table, f, page.next))
    ensures page.rows + later == list
  {
    assert page.rows == list[..|page.rows|];
    assert page.rows[|page.rows| - 1] == list[|page.rows| - 1];
    PageThenRest(table, f, cursor, list, |page.rows|, page.next);
  }

  /**
   For every table, filter and limit the service accepts, following the cursors from
   the first page yields exactly the unpaged list.
   */
  lemma PagesAreTheList(table: Table, f: Filter, limit: int)
    requires ValidTable(table) && NewRequest(limit, None).Ok?
    ensures Walk(table, f, NewRequest(limit, None).value) == ListAll(table, f)
  {
    WalkIsListing(table, f, NewRequest(limit, None).value);
  }

  // ---------------------------------------------------------------------------
  // Which rows are listed, and in which order
  // ---------------------------------------------------------------------------

  /** The row is the tenant's if one is asked for. */
  predicate OfTenant(f: Filter, r: Row) {
    f.tenant != "" ==> r.tenant == f.tenant
  }

  /** If any supported status is asked for, the row has one of those. */
  predicate OfStatus(f: Filter, r: Row) {
    (exists s :: s in f.statuses && !s.Unsupported?) ==> r.status in f.statuses && !r.status.Unsupported?
  }

  lemma MatchesIff(f: Filter, r: Row)
    ensures Matches(f, r) <==> OfTenant(f, r) && OfStatus(f, r) && f.matchesSearch(r)
  {
    NormalizedMeaning(f.statuses);
    if Normalized(f.statuses) != [] {
      assert Normalized(f.statuses)[0] in Normalized(f.statuses);
    }
  }

  /** Newest first, and by descending id among rows of one instant. */
  predicate NewestFirstOrder(rows: seq<Row>) {
    forall i, j :: 0 <= i < j < |rows| ==>
      || rows[i].createdAt > rows[j].createdAt
      || (rows[i].createdAt == rows[j].createdAt && rows[i].id > rows[j].id)
  }

  /** A page of any request shows only stored rows of the tenant and statuses asked for, newest first. */
  lemma PageShowsOnlyAskedFor(table: Table, f: Filter, request: Request, i: nat)
    requires ValidTable(table) && 0 < request.limit
    ensures ListPage(table, f, request).Ok?
    ensures var rows := ListPage(table, f, request).value.rows;
            && NewestFirstOrder(rows) && |rows| <= request.limit
            && (i < |rows| ==>
                  && rows[i] in table.Values
                  && OfTenant(f, rows[i]) && OfStatus(f, rows[i]) && f.matchesSearch(rows[i]))
  {
    PageMeaning(table, f, request);
    PageBeyond(table, f, request);
    var list, rows := Listing(Selected(table, f, request.cursor)), ListPage(table, f, request).value.rows;
    if i < |rows| {
      assert rows[i] == list[i] && list[i] in Elements(list);
      MatchesIff(f, rows[i]);
    }
  }

  lemma ListedIff(table: Table, f: Filter, r: Row)
    requires ValidTable(table)
    ensures r in ListAll(table, f) <==>
            r in table.Values && OfTenant(f, r) && OfStatus(f, r) && f.matchesSearch(r)
  {
    SelectedDistinct(table, f, None);
    MatchesIff(f, r);
    var list := Listing(Selected(table, f, None));
    assert r in list <==> r in Elements(list);
  }

  /** Following the cursors lists exactly the stored rows that were asked for, newest first. */
  lemma WalkListsExactly(table: Table, f: Filter, limit: int, r: Row)
    requires ValidTable(table) && 1 <= limit <= 100
    ensures var rows := Walk(table, f, NewRequest(limit, None).value);
            && NewestFirstOrder(rows)
            && (r in rows <==> r in table.Values && OfTenant(f, r) && OfStatus(f, r) && f.matchesSearch(r))
  {
    PagesAreTheList(table, f, limit);
    ListedIff(table, f, r);
    SelectedDistinct(table, f, None);
    assert Descending(ListAll(table, f));
  }

  // ---------------------------------------------------------------------------
  // Following cursors while the table changes
  // ---------------------------------------------------------------------------

  /** `rows` so far, and whether the last page had no next cursor. */
  datatype Progress = Progress(rows: seq<Row>, finished: bool)

  /** One request per table, each seeing the table as it then is. */
  ghost function WalkChanging(tables: seq<Table>, f: Filter, request: Request): Progress
    requires 0 < request.limit && forall i :: 0 <= i < |tables| ==> ValidTable(tables[i])
    decreases |tables|
  {
    if tables == [] then Progress([], false)
    else
      PageMeaning(tables[0], f, request);
      var page := ListPage(tables[0], f, request).value;
      match page.next
      case None => Progress(page.rows, true)
      case Some(_) =>
        var later := WalkChanging(tables[1..], f, request.(cursor := page.next));
        Progress(page.rows + later.rows, later.finished)
  }

  predicate AllBeyond(cursor: Option<Key>, rows: seq<Row>) {
    forall i :: 0 <= i < |rows| ==> Beyond(cursor, KeyOf(rows[i]))
  }

  lemma PageBeyond(table: Table, f: Filter, request: Request)
    requires ValidTable(table) && 0 < request.limit
    ensures ListPage(table, f, request).Ok?
    ensures var page := ListPage(table, f, request).value;
            && Descending(page.rows) && AllBeyond(request.cursor, page.rows)
            && (page.next.Some? ==> page.rows != [] && page.next == Some(KeyOf(page.rows[|page.rows| - 1])))
  {
    PageMeaning(table, f, request);
    var list := Listing(Selected(table, f, request.cursor));
    var page := ListPage(table, f, request).value;
    forall i | 0 <= i < |page.rows|
      ensures page.rows[i] == list[i] && list[i] in Selected(table, f, request.cursor)
    {
      assert list[i] in Elements(list);
    }
  }

  lemma DescendingJoin(a: seq<Row>, b: seq<Row>)
    requires Descending(a) && Descending(b)
    requires a != [] && AllBeyond(Some(KeyOf(a[|a| - 1])), b)
    ensures Descending(a + b)
  {
    var last := KeyOf(a[|a| - 1]);
    forall i, j | 0 <= i < |a| && 0 <= j < |b|
      ensures Newer(KeyOf(a[i]), KeyOf(b[j]))
    {
      BeyondIsNewer(last, KeyOf(b[j]));
      assert i < |a| - 1 ==> Newer(KeyOf(a[i]), last);
    }
  }

  lemma BeyondLater(cursor: Option<Key>, next: Key, rows: seq<Row>)
    requires Beyond(cursor, next) && AllBeyond(Some(next), rows)
    ensures AllBeyond(cursor, rows)
  {
    forall i | 0 <= i < |rows|
      ensures Beyond(cursor, KeyOf(rows[i]))
    {
      assert Beyond(Some(next), KeyOf(rows[i]));
    }
  }

  lemma WalkChangingUnfolds(tables: seq<Table>, f: Filter, request: Request, page: Page)
    requires 0 < request.limit && tables != [] && forall i :: 0 <= i < |tables| ==> ValidTable(tables[i])
    requires ListPage(tables[0], f, request) == Ok(page)
    ensures page.next.None? ==> WalkChanging(tables, f, request) == Progress(page.rows, true)
    ensures page.next.Some? ==>
              var later := WalkChanging(tables[1..], f, request.(cursor := page.next));
              WalkChanging(tables, f, request) == Progress(page.rows + later.rows, later.finished)
  {
  }

  /** A page, then rows beyond its cursor, stay in order and beyond the cursor before. */
  lemma JoinPages(cursor: Option<Key>, page: Page, later: seq<Row>)
    requires Descending(page.rows) && AllBeyond(cursor, page.rows) && page.rows != []
    requires page.next == Some(KeyOf(page.rows[|page.rows| - 1]))
    requires Descending(later) && AllBeyond(page.next, later)
    ensures Descending(page.rows + later) && AllBeyond(cursor, page.rows + later)
  {
    DescendingJoin(page.rows, later);
    BeyondLater(cursor, page.next.value, later);
  }

  /** Whatever happens to the table, no (created_at, id) is ever listed twice or out of order. */
  lemma {:induction false} WalkDescends(tables: seq<Table>, f: Filter, request: Request)
    requires 0 < request.limit && forall i :: 0 <= i < |tables| ==> ValidTable(tables[i])
    ensures var walk := WalkChanging(tables, f, request);
            Descending(walk.rows) && AllBeyond(request.cursor, walk.rows)
    decreases |tables|
  {
    if tables != [] {
      PageBeyond(tables[0], f, request);
      var page := ListPage(tables[0], f, request).value;
      WalkChangingUnfolds(tables, f, request, page);
      if page.next.Some? {
        WalkDescends(tables[1..], f, request.(cursor := page.next));
        JoinPages(request.cursor, page, WalkChanging(tables[1..], f, request.(cursor := page.next)).rows);
      }
    }
  }

  /** Every row was created at the instant that belongs to its id. */
  predicate CreatedAsIn(rows: set<Row>, created: nat -> int) {
    forall r :: r in rows ==> r.createdAt == created(r.id)
  }

  predicate AllCreatedAsIn(tables: seq<Table>, created: nat -> int) {
    forall i :: 0 <= i < |tables| ==> CreatedAsIn(tables[i].Values, created)
  }

  lemma PageFromTable(table: Table, f: Filter, request: Request, created: nat -> int)
    requires ValidTable(table) && 0 < request.limit && CreatedAsIn(table.Values, created)
    ensures ListPage(table, f, request).Ok?
    ensures CreatedAsIn(Elements(ListPage(table, f, request).value.rows), created)
  {
    PageMeaning(table, f, request);
    var list := Listing(Selected(table, f, request.cursor));
    var rows := ListPage(table, f, request).value.rows;
    forall r | r in Elements(rows)
      ensures r in Selected(table, f, request.cursor)
    {
      assert r in list && r in Elements(list);
    }
  }

  lemma {:induction false} WalkFromTables(tables: seq<Table>, f: Filter, request: Request, created: nat -> int)
    requires 0 < request.limit && forall i :: 0 <= i < |tables| ==> ValidTable(tables[i])
    requires AllCreatedAsIn(tables, created)
    ensures CreatedAsIn(Elements(WalkChanging(tables, f, request).rows), created)
    decreases |tables|
  {
    if tables != [] {
      PageFromTable(tables[0], f, request, created);
      var page := ListPage(tables[0], f, request).value;
      WalkChangingUnfolds(tables, f, request, page);
      if page.next.Some? {
        WalkFromTables(tables[1..], f, request.(cursor := page.next), created);
      }
    }
  }

  lemma DescendingDistinctIds(rows: seq<Row>, created: nat -> int, i: nat, j: nat)
    requires Descending(rows) && CreatedAsIn(Elements(rows), created) && i < j < |rows|
    ensures rows[i].id != rows[j].id
  {
    assert rows[i] in Elements(rows) && rows[j] in Elements(rows);
    assert Newer(KeyOf(rows[i]), KeyOf(rows[j]));
  }

  /**
   As long as no row changes its creation time, no id is ever listed twice, whatever
   else is inserted, deleted or changed between the requests.
   */
  lemma WalkListsNoIdTwice(tables: seq<Table>, f: Filter, request: Request, created: nat -> int)
    requires 0 < request.limit && forall i :: 0 <= i < |tables| ==> ValidTable(tables[i])
    requires AllCreatedAsIn(tables, created)
    ensures var rows := WalkChanging(tables, f, request).rows;
            forall i, j :: 0 <= i < j < |rows| ==> rows[i].id != rows[j].id
  {
    WalkDescends(tables, f, request);
    WalkFromTables(tables, f, request, created);
    var rows := WalkChanging(tables, f, request).rows;
    forall i, j | 0 <= i < j < |rows|
      ensures rows[i].id != rows[j].id
    {
      DescendingDistinctIds(rows, created, i, j);
    }
  }

  /** A row with this key is there, and matches, in every table of the walk. */
  predicate Persists(tables: seq<Table>, f: Filter, k: Key) {
    forall i :: 0 <= i < |tables| ==> Present(tables[i], f, k)
  }

  predicate Present(table: Table, f: Filter, k: Key) {
    k.id in table && KeyOf(table[k.id]) == k && Matches(f, table[k.id])
  }

  predicate Emitted(rows: seq<Row>, k: Key) {
    exists i :: 0 <= i < |rows| && KeyOf(rows[i]) == k
  }

  lemma EmittedJoin(a: seq<Row>, b: seq<Row>, k: Key)
    ensures Emitted(a + b, k) <==> Emitted(a, k) || Emitted(b, k)
  {
    if i :| 0 <= i < |a| && KeyOf(a[i]) == k {
      assert (a + b)[i] == a[i];
    }
    if i :| 0 <= i < |b| && KeyOf(b[i]) == k {
      assert (a + b)[|a| + i] == b[i];
    }
  }

  /** A selected row is on the page or beyond its cursor. */
  lemma OnPageOrBeyond(table: Table, f: Filter, request: Request, k: Key)
    requires ValidTable(table) && 0 < request.limit
    requires Present(table, f, k) && Beyond(request.cursor, k)
    ensures ListPage(table, f, request).Ok?
    ensures var page := ListPage(table, f, request).value;
            Emitted(page.rows, k) || (page.next.Some? && Beyond(page.next, k))
  {
    PageMeaning(table, f, request);
    var row := table[k.id];
    var list := Listing(Selected(table, f, request.cursor));
    assert row in Selected(table, f, request.cursor);
    assert row in Elements(list);
    var i :| 0 <= i < |list| && list[i] == row;
    var page := ListPage(table, f, request).value;
    if i < |page.rows| {
      assert KeyOf(page.rows[i]) == k;
    } else {
      assert Newer(KeyOf(list[request.limit - 1]), KeyOf(list[i]));
    }
  }

  lemma {:induction false} PersistentBeyondEmitted(tables: seq<Table>, f: Filter, request: Request, k: Key)
    requires 0 < request.limit && forall i :: 0 <= i < |tables| ==> ValidTable(tables[i])
    requires Persists(tables, f, k) && Beyond(request.cursor, k)
    requires WalkChanging(tables, f, request).finished
    ensures Emitted(WalkChanging(tables, f, request).rows, k)
    decreases |tables|
  {
    assert Present(tables[0], f, k);
    OnPageOrBeyond(tables[0], f, request, k);
    var page := ListPage(tables[0], f, request).value;
    WalkChangingUnfolds(tables, f, request, page);
    if page.next.Some? {
      PersistentLater(tables, f, request, k, page);
    }
  }

  lemma PersistentLater(tables: seq<Table>, f: Filter, request: Request, k: Key, page: Page)
    requires 0 < request.limit && tables != [] && forall i :: 0 <= i < |tables| ==> ValidTable(tables[i])
    requires Persists(tables, f, k) && page.next.Some?
    requires Emitted(page.rows, k) || Beyond(page.next, k)
    requires WalkChanging(tables[1..], f, request.(cursor := page.next)).finished
    ensures Emitted(page.rows + WalkChanging(tables[1..], f, request.(cursor := page.next)).rows, k)
    decreases |tables|, 0
  {
    var rest := request.(cursor := page.next);
    if Beyond(page.next, k) {
      assert Persists(tables[1..], f, k);
      PersistentBeyondEmitted(tables[1..], f, rest, k);
    }
    EmittedJoin(page.rows, WalkChanging(tables[1..], f, rest).rows, k);
  }

  /**
   However other rows are inserted, deleted or changed between the requests, a row
   that is present and matches throughout a finished walk is listed exactly once.
   */
  lemma PersistentRowListedOnce(tables: seq<Table>, f: Filter, limit: int, k: Key) returns (at: nat)
    requires NewRequest(limit, None).Ok? && forall i :: 0 <= i < |tables| ==> ValidTable(tables[i])
    requires Persists(tables, f, k)
    requires WalkChanging(tables, f, NewRequest(limit, None).value).finished
    ensures var rows := WalkChanging(tables, f, NewRequest(limit, None).value).rows;
            && at < |rows| && KeyOf(rows[at]) == k
            && forall i :: 0 <= i < |rows| && i != at ==> KeyOf(rows[i]) != k
  {
    var request := NewRequest(limit, None).value;
    PersistentBeyondEmitted(tables, f, request, k);
    WalkDescends(tables, f, request);
    var rows := WalkChanging(tables, f, request).rows;
    at :| 0 <= at < |rows| && KeyOf(rows[at]) == k;
    forall i | 0 <= i < |rows| && i != at
      ensures KeyOf(rows[i]) != k
    {
      if i < at {
        assert Newer(KeyOf(rows[i]), KeyOf(rows[at]));
      } else {
        assert Newer(KeyOf(rows[at]), KeyOf(rows[i]));
      }
    }
  }
}
