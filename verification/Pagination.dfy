/** Keyset pagination of sessions: `processing/internal/service/dashboard.go`, its query in
    `processing/internal/db/sessions.sql.go`, and the cursor choice of
    `processing/internal/handler/dashboard.go`.

    A client asks for the first page and then follows `next_cursor` over a table that does not
    change. A cursor is text; `readBack` is the value the database sees when it casts that text
    to the type of the sort column. */
module Pagination {
  import opened Options
  import Decimal

  /** A session row. Times are in microseconds and costs in units of 1e-8, as the columns keep
      them. `providers` are the provider types of its spans. */
  datatype Row = Row(
    id: nat, org: nat, apiKey: nat, agent: string, status: string, providers: set<string>,
    startedAt: int, lastSpanAt: int, spanCount: nat, totalCost: nat)

  datatype Filter = Filter(
    org: nat, status: Option<string>, apiKey: Option<nat>, agent: Option<string>,
    from: Option<int>, to: Option<int>, provider: Option<string>)

  /** What a client asks for; "" where it leaves the sort to the default. */
  datatype Query = Query(filter: Filter, sortBy: string, sortOrder: string, limit: int)

  /** A place in the order: the value of the sort column, then the id. */
  datatype Place = Place(val: int, id: nat)

  /** Two incompatible payloads: the default sort encodes a timestamp, every other sort a value. */
  datatype Cursor = TimeCursor(at: Place) | SortCursor(at: Place)

  datatype Page = Page(rows: seq<Row>, next: Option<Cursor>)

  // ---------------------------------------------------------------------
  // One request
  // ---------------------------------------------------------------------

  predicate ValidQuery(q: Query) {
    q.sortBy in ["", "started_at", "total_cost_usd", "span_count", "last_span_at"] && q.sortOrder in ["", "asc", "desc"]
  }

  function Limit(q: Query): (n: nat)
    ensures 1 <= n <= 100
    ensures q.limit <= 0 ==> n == 50
    ensures 1 <= q.limit <= 100 ==> n == q.limit
    ensures q.limit > 100 ==> n == 100
  {
    if q.limit <= 0 then 50 else if q.limit > 100 then 100 else q.limit
  }

  function SortBy(q: Query): string {
    if q.sortBy == "" then "started_at" else q.sortBy
  }

  predicate Ascending(q: Query) {
    q.sortOrder == "asc"
  }

  /** The service uses the dynamic query, and its kind of cursor. */
  predicate UsesSortedQuery(q: Query) {
    !(SortBy(q) == "started_at" && !Ascending(q))
  }

  /** The handler expects the dynamic query's kind of cursor. */
  predicate ExpectsSortCursor(q: Query) {
    q.sortBy != "" && !(q.sortBy == "started_at" && (q.sortOrder == "" || q.sortOrder == "desc"))
  }

  function SortValue(r: Row, sortBy: string): int {
    match sortBy
    case "total_cost_usd" => r.totalCost
    case "span_count" => r.spanCount
    case "last_span_at" => r.lastSpanAt
    case _ => r.startedAt
  }

  function PlaceOf(r: Row, q: Query): Place {
    Place(SortValue(r, SortBy(q)), r.id)
  }

  /** The comparison of the WHERE clause, and of ORDER BY: strictly further down the list. */
  predicate Precedes(a: Place, b: Place, asc: bool) {
    if asc then a.val < b.val || (a.val == b.val && a.id < b.id)
    else b.val < a.val || (b.val == a.val && b.id < a.id)
  }

  predicate Keeps(f: Filter, r: Row) {
    && r.org == f.org
    && (f.status.Some? ==> r.status == f.status.value)
    && (f.apiKey.Some? ==> r.apiKey == f.apiKey.value)
    && (f.agent.Some? ==> r.agent == f.agent.value)
    && (f.from.Some? ==> r.startedAt >= f.from.value)
    && (f.to.Some? ==> r.startedAt <= f.to.value)
    && (f.provider.Some? ==> f.provider.value in r.providers)
  }

  /** The rows the WHERE clause selects. */
  function Where(table: seq<Row>, q: Query, from: Option<Place>): seq<Row> {
    if table == [] then []
    else if Keeps(q.filter, table[0]) && (from.Some? ==> Precedes(from.value, PlaceOf(table[0], q), Ascending(q)))
      then [table[0]] + Where(table[1..], q, from)
    else Where(table[1..], q, from)
  }

  function Insert(r: Row, rows: seq<Row>, q: Query): seq<Row> {
    if rows == [] || Precedes(PlaceOf(r, q), PlaceOf(rows[0], q), Ascending(q)) then [r] + rows
    else [rows[0]] + Insert(r, rows[1..], q)
  }

  function OrderBy(rows: seq<Row>, q: Query): seq<Row> {
    if rows == [] then [] else Insert(rows[0], OrderBy(rows[1..], q), q)
  }

  function Take(rows: seq<Row>, n: nat): seq<Row> {
    if |rows| <= n then rows else rows[..n]
  }

  function NextCursor(rows: seq<Row>, q: Query): Option<Cursor> {
    if |rows| == Limit(q) then
      var at := PlaceOf(rows[|rows| - 1], q);
      Some(if UsesSortedQuery(q) then SortCursor(at) else TimeCursor(at))
    else None
  }

  function ListSessions(table: seq<Row>, q: Query, from: Option<Place>): Page {
    var rows := Take(OrderBy(Where(table, q, from), q), Limit(q));
    Page(rows, NextCursor(rows, q))
  }

  // ---------------------------------------------------------------------
  // Following the cursor
  // ---------------------------------------------------------------------

  /** The place a cursor stands for; `None` when the request is refused. */
  function Decode(q: Query, c: Cursor, readBack: int -> int): Option<Place> {
    if ExpectsSortCursor(q) == c.SortCursor? then Some(Place(readBack(c.at.val), c.at.id)) else None
  }

  /** The rows a client sees, and whether a page without a cursor ended the listing. */
  datatype Listing = Listing(rows: seq<Row>, complete: bool)

  /** At most `requests` requests. */
  function Follow(table: seq<Row>, q: Query, readBack: int -> int, requests: nat, from: Option<Place>): Listing {
    if requests == 0 then Listing([], false)
    else
      var page := ListSessions(table, q, from);
      if page.next.None? then Listing(page.rows, true)
      else
        var place := Decode(q, page.next.value, readBack);
        if place.None? then Listing(page.rows, false)
        else
          var rest := Follow(table, q, readBack, requests - 1, place);
          Listing(page.rows + rest.rows, rest.complete)
  }

  /** The whole list in order. */
  function Whole(table: seq<Row>, q: Query): seq<Row> {
    OrderBy(Where(table, q, None), q)
  }

  ghost predicate UniqueIds(table: seq<Row>) {
    forall i, j :: 0 <= i < j < |table| ==> table[i].id != table[j].id
  }

  // ---------------------------------------------------------------------
  // The order
  // ---------------------------------------------------------------------

  /** No row of the list precedes one before it. */
  ghost predicate Sorted(rows: seq<Row>, q: Query) {
    forall i, j :: 0 <= i < j < |rows| ==> Precedes(PlaceOf(rows[i], q), PlaceOf(rows[j], q), Ascending(q))
  }

  lemma Total(a: Place, b: Place, asc: bool)
    requires a.id != b.id && !Precedes(a, b, asc)
    ensures Precedes(b, a, asc)
  {
  }

  lemma Transitive(a: Place, b: Place, c: Place, asc: bool)
    requires Precedes(a, b, asc) && Precedes(b, c, asc)
    ensures Precedes(a, c, asc)
  {
  }

  lemma {:induction false} InsertFacts(r: Row, rows: seq<Row>, q: Query)
    requires Sorted(rows, q) && forall i :: 0 <= i < |rows| ==> rows[i].id != r.id
    ensures Sorted(Insert(r, rows, q), q)
    ensures multiset(Insert(r, rows, q)) == multiset{r} + multiset(rows)
  {
    hide Precedes, SortValue;
    if rows == [] {
    } else if Precedes(PlaceOf(r, q), PlaceOf(rows[0], q), Ascending(q)) {
      forall j | 1 <= j < |rows| ensures Precedes(PlaceOf(r, q), PlaceOf(rows[j], q), Ascending(q)) {
        Transitive(PlaceOf(r, q), PlaceOf(rows[0], q), PlaceOf(rows[j], q), Ascending(q));
      }
      SortedCons(r, rows, q);
    } else {
      InsertFacts(r, rows[1..], q);
      var tail := Insert(r, rows[1..], q);
      assert rows == [rows[0]] + rows[1..];
      Total(PlaceOf(r, q), PlaceOf(rows[0], q), Ascending(q));
      forall j | 0 <= j < |tail| ensures Precedes(PlaceOf(rows[0], q), PlaceOf(tail[j], q), Ascending(q)) {
        assert tail[j] in multiset(tail);
        assert tail[j] == r || tail[j] in rows[1..];
      }
      SortedCons(rows[0], tail, q);
    }
  }

  lemma SortedCons(r: Row, tail: seq<Row>, q: Query)
    requires Sorted(tail, q)
    requires forall j :: 0 <= j < |tail| ==> Precedes(PlaceOf(r, q), PlaceOf(tail[j], q), Ascending(q))
    ensures Sorted([r] + tail, q)
  {
  }

  lemma {:induction false} OrderFacts(rows: seq<Row>, q: Query)
    requires UniqueIds(rows)
    ensures Sorted(OrderBy(rows, q), q)
    ensures multiset(OrderBy(rows, q)) == multiset(rows)
  {
    if rows == [] {
    } else {
      OrderFacts(rows[1..], q);
      var tail := OrderBy(rows[1..], q);
      forall i | 0 <= i < |tail| ensures tail[i].id != rows[0].id {
        assert tail[i] in multiset(tail);
        assert tail[i] in rows[1..];
      }
      InsertFacts(rows[0], tail, q);
      assert rows == [rows[0]] + rows[1..];
    }
  }

  lemma {:induction false} WhereFacts(table: seq<Row>, q: Query, from: Option<Place>)
    requires UniqueIds(table)
    ensures UniqueIds(Where(table, q, from))
    ensures forall r :: r in Where(table, q, from) <==>
              r in table && Keeps(q.filter, r) && (from.Some? ==> Precedes(from.value, PlaceOf(r, q), Ascending(q)))
  {
    if table == [] {
    } else {
      WhereFacts(table[1..], q, from);
      assert table == [table[0]] + table[1..];
      var tail := Where(table[1..], q, from);
      forall i | 0 <= i < |tail| ensures tail[i].id != table[0].id {
        assert tail[i] in table[1..];
      }
    }
  }

  /** The whole list holds exactly the filtered rows, each once, in strictly sorted order. */
  lemma WholeIsSorted(table: seq<Row>, q: Query)
    requires UniqueIds(table)
    ensures Sorted(Whole(table, q), q)
    ensures forall r :: r in Whole(table, q) <==> r in table && Keeps(q.filter, r)
    ensures UniqueIds(Whole(table, q))
  {
    var rows := Where(table, q, None);
    WhereFacts(table, q, None);
    OrderFacts(rows, q);
    var whole := Whole(table, q);
    forall r ensures r in whole <==> r in rows {
      assert r in whole <==> r in multiset(whole);
      assert r in rows <==> r in multiset(rows);
    }
    SortedIsUnique(whole, q, multiset(rows));
  }

  lemma SortedIsUnique(whole: seq<Row>, q: Query, rows: multiset<Row>)
    requires Sorted(whole, q) && multiset(whole) == rows
    requires forall a, b :: a in rows && b in rows && a.id == b.id ==> a == b
    ensures UniqueIds(whole)
  {
  }

  // ---------------------------------------------------------------------
  // Field by field
  // ---------------------------------------------------------------------

  /** The rows of every page, whatever its cursor, are ordered by the requested column - the start
      time when none is given - in the requested direction - descending when none is given - and
      rows with equal values by their ids in the same direction. */
  lemma OrderedByField(table: seq<Row>, q: Query, from: Option<Place>, i: nat, j: nat)
    requires UniqueIds(table) && ValidQuery(q) && i < j < |ListSessions(table, q, from).rows|
    ensures var a, b := ListSessions(table, q, from).rows[i], ListSessions(table, q, from).rows[j];
            if q.sortOrder == "asc" then
              && (q.sortBy in ["", "started_at"] ==>
                    a.startedAt < b.startedAt || (a.startedAt == b.startedAt && a.id < b.id))
              && (q.sortBy == "last_span_at" ==>
                    a.lastSpanAt < b.lastSpanAt || (a.lastSpanAt == b.lastSpanAt && a.id < b.id))
              && (q.sortBy == "span_count" ==>
                    a.spanCount < b.spanCount || (a.spanCount == b.spanCount && a.id < b.id))
              && (q.sortBy == "total_cost_usd" ==>
                    a.totalCost < b.totalCost || (a.totalCost == b.totalCost && a.id < b.id))
            else
              && (q.sortBy in ["", "started_at"] ==>
                    a.startedAt > b.startedAt || (a.startedAt == b.startedAt && a.id > b.id))
              && (q.sortBy == "last_span_at" ==>
                    a.lastSpanAt > b.lastSpanAt || (a.lastSpanAt == b.lastSpanAt && a.id > b.id))
              && (q.sortBy == "span_count" ==>
                    a.spanCount > b.spanCount || (a.spanCount == b.spanCount && a.id > b.id))
              && (q.sortBy == "total_cost_usd" ==>
                    a.totalCost > b.totalCost || (a.totalCost == b.totalCost && a.id > b.id))
  {
    hide Where, OrderBy;
    WhereFacts(table, q, from);
    OrderFacts(Where(table, q, from), q);
    var a, b := ListSessions(table, q, from).rows[i], ListSessions(table, q, from).rows[j];
    assert Precedes(PlaceOf(a, q), PlaceOf(b, q), Ascending(q));
  }

  /** A row is in the whole list exactly when it is in the table, belongs to the organization,
      and meets each filter that is given. */
  lemma ListedByField(table: seq<Row>, q: Query, r: Row)
    requires UniqueIds(table)
    ensures var f := q.filter;
            r in Whole(table, q)
            <==> && r in table && r.org == f.org
                 && f.status in {None, Some(r.status)} && f.apiKey in {None, Some(r.apiKey)}
                 && f.agent in {None, Some(r.agent)}
                 && (f.from == None || f.from.value <= r.startedAt) && (f.to == None || r.startedAt <= f.to.value)
                 && (f.provider == None || f.provider.value in r.providers)
  {
    WholeIsSorted(table, q);
  }

  /** No request lists anything else. */
  lemma {:induction false} FollowListsOnly(table: seq<Row>, q: Query, readBack: int -> int, requests: nat,
                                           from: Option<Place>, r: Row)
    requires UniqueIds(table) && r in Follow(table, q, readBack, requests, from).rows
    ensures r in Whole(table, q)
    decreases requests
  {
    hide Where, OrderBy, Whole;
    var page := ListSessions(table, q, from);
    if r in page.rows {
      PageListsOnly(table, q, from, r);
    } else {
      var place := Decode(q, page.next.value, readBack);
      FollowListsOnly(table, q, readBack, requests - 1, place, r);
    }
  }

  lemma PageListsOnly(table: seq<Row>, q: Query, from: Option<Place>, r: Row)
    requires UniqueIds(table) && r in ListSessions(table, q, from).rows
    ensures r in Whole(table, q)
  {
    hide Where, OrderBy, Whole, UniqueIds, Keeps;
    var rows := Where(table, q, from);
    WhereFacts(table, q, from);
    OrderFacts(rows, q);
    assert r in OrderBy(rows, q);
    assert r in multiset(OrderBy(rows, q));
    assert r in multiset(rows);
    WholeIsSorted(table, q);
  }

  // ---------------------------------------------------------------------
  // A page is a slice of the whole list
  // ---------------------------------------------------------------------

  /** The rows behind a place. */
  function Behind(rows: seq<Row>, q: Query, place: Place): seq<Row> {
    if rows == [] then []
    else if Precedes(place, PlaceOf(rows[0], q), Ascending(q)) then [rows[0]] + Behind(rows[1..], q, place)
    else Behind(rows[1..], q, place)
  }

  lemma {:induction false} InsertBehind(r: Row, rows: seq<Row>, q: Query, place: Place)
    ensures Behind(Insert(r, rows, q), q, place)
            == if Precedes(place, PlaceOf(r, q), Ascending(q)) then Insert(r, Behind(rows, q, place), q)
                else Behind(rows, q, place)
  {
    var inserted := Insert(r, rows, q);
    if rows == [] {
    } else if Precedes(PlaceOf(r, q), PlaceOf(rows[0], q), Ascending(q)) {
      assert inserted[1..] == rows;
    } else {
      assert inserted[0] == rows[0] && inserted[1..] == Insert(r, rows[1..], q);
      InsertBehind(r, rows[1..], q, place);
    }
  }

  /** Filtering by the cursor before sorting is filtering the sorted list. */
  lemma {:induction false} OrderBehind(table: seq<Row>, q: Query, place: Place)
    ensures OrderBy(Where(table, q, Some(place)), q) == Behind(Whole(table, q), q, place)
  {
    if table == [] {
    } else {
      var r := table[0];
      OrderBehind(table[1..], q, place);
      if Keeps(q.filter, r) {
        var rows := Where(table[1..], q, None);
        assert Where(table, q, None)[1..] == rows;
        InsertBehind(r, OrderBy(rows, q), q, place);
        if Precedes(place, PlaceOf(r, q), Ascending(q)) {
          assert Where(table, q, Some(place))[1..] == Where(table[1..], q, Some(place));
        }
      }
    }
  }

  lemma {:induction false} BehindAll(rows: seq<Row>, q: Query, place: Place)
    requires forall i :: 0 <= i < |rows| ==> Precedes(place, PlaceOf(rows[i], q), Ascending(q))
    ensures Behind(rows, q, place) == rows
  {
    if rows == [] {
    } else {
      BehindAll(rows[1..], q, place);
    }
  }

  lemma {:induction false} BehindIsSuffix(rows: seq<Row>, q: Query, place: Place)
    requires Sorted(rows, q)
    ensures var m := |Behind(rows, q, place)|; m <= |rows| && Behind(rows, q, place) == rows[|rows| - m..]
    ensures forall i :: 0 <= i < |rows| ==>
              (Precedes(place, PlaceOf(rows[i], q), Ascending(q)) <==> i >= |rows| - |Behind(rows, q, place)|)
  {
    if rows == [] {
    } else {
      if Precedes(place, PlaceOf(rows[0], q), Ascending(q)) {
        BehindAll(rows, q, place);
      } else {
        BehindIsSuffix(rows[1..], q, place);
        var m := |Behind(rows[1..], q, place)|;
        assert rows[1..][|rows| - 1 - m..] == rows[|rows| - m..];
      }
    }
  }

  /** The text of the cursor of row `k` reads back as a place at or behind that row and before
      the next one. */
  predicate CursorSound(rows: seq<Row>, q: Query, readBack: int -> int, k: nat)
    requires k < |rows|
  {
    var place := Place(readBack(PlaceOf(rows[k], q).val), rows[k].id);
    && !Precedes(place, PlaceOf(rows[k], q), Ascending(q))
    && (k + 1 < |rows| ==> Precedes(place, PlaceOf(rows[k + 1], q), Ascending(q)))
  }

  /** A sound cursor, and no other, resumes exactly behind its row. */
  lemma ResumesBehind(rows: seq<Row>, q: Query, readBack: int -> int, k: nat)
    requires Sorted(rows, q) && k < |rows|
    ensures var place := Place(readBack(PlaceOf(rows[k], q).val), rows[k].id);
            CursorSound(rows, q, readBack, k) <==> |Behind(rows, q, place)| == |rows| - k - 1
  {
    BehindIsSuffix(rows, q, Place(readBack(PlaceOf(rows[k], q).val), rows[k].id));
  }

  // ---------------------------------------------------------------------
  // The listing
  // ---------------------------------------------------------------------

  /** The cursors that will be followed: those of the last rows of full pages. */
  predicate CursorsSound(rows: seq<Row>, q: Query, readBack: int -> int, start: nat)
    decreases |rows| - start
  {
    start + Limit(q) <= |rows| ==>
      CursorSound(rows, q, readBack, start + Limit(q) - 1) && CursorsSound(rows, q, readBack, start + Limit(q))
  }

  /** What a request from a place answers, given how many rows are behind that place. */
  lemma PageAt(table: seq<Row>, q: Query, from: Option<Place>, start: nat)
    requires UniqueIds(table) && start <= |Whole(table, q)|
    requires if from.None? then start == 0 else |Behind(Whole(table, q), q, from.value)| == |Whole(table, q)| - start
    ensures ListSessions(table, q, from).rows == Take(Whole(table, q)[start..], Limit(q))
  {
    var whole := Whole(table, q);
    if from.Some? {
      WholeIsSorted(table, q);
      OrderBehind(table, q, from.value);
      BehindIsSuffix(whole, q, from.value);
    }
  }

  /** The listing from any place on, by the page. */
  lemma {:induction false} FollowFrom(table: seq<Row>, q: Query, readBack: int -> int, requests: nat,
                                      from: Option<Place>, start: nat)
    requires UniqueIds(table) && ExpectsSortCursor(q) == UsesSortedQuery(q) && start <= |Whole(table, q)|
    requires if from.None? then start == 0 else |Behind(Whole(table, q), q, from.value)| == |Whole(table, q)| - start
    requires requests >= PageCount(|Whole(table, q)| - start, Limit(q))
    ensures Follow(table, q, readBack, requests, from) == Listing(Whole(table, q)[start..], true)
            <==> CursorsSound(Whole(table, q), q, readBack, start)
    decreases requests
  {
    hide Follow, Whole, Behind, UniqueIds, CursorSound, Precedes, Sorted, PlaceOf, Limit;
    var whole, limit := Whole(table, q), Limit(q);
    FirstPage(table, q, readBack, requests, from, start);
    if start + limit <= |whole| {
      var k := start + limit - 1;
      var place := Place(readBack(PlaceOf(whole[k], q).val), whole[k].id);
      WholeIsSorted(table, q);
      ResumesBehind(whole, q, readBack, k);
      var rest := Follow(table, q, readBack, requests - 1, Some(place));
      SplitListing(whole, start, limit, rest.rows);
      if CursorSound(whole, q, readBack, k) {
        FollowFrom(table, q, readBack, requests - 1, Some(place), start + limit);
      } else {
        WrongRest(table, q, readBack, requests - 1, place, start + limit);
      }
    }
  }

  /** A full page and what follows from its cursor, or a last page. */
  lemma {:induction false} FirstPage(table: seq<Row>, q: Query, readBack: int -> int, requests: nat,
                                     from: Option<Place>, start: nat)
    requires UniqueIds(table) && ExpectsSortCursor(q) == UsesSortedQuery(q) && start <= |Whole(table, q)|
             && requests > 0
    requires if from.None? then start == 0 else |Behind(Whole(table, q), q, from.value)| == |Whole(table, q)| - start
    ensures var whole, end := Whole(table, q), start + Limit(q);
            Follow(table, q, readBack, requests, from)
            == if end <= |whole| then
                 var rest := Follow(table, q, readBack, requests - 1,
                     Some(Place(readBack(PlaceOf(whole[end - 1], q).val), whole[end - 1].id)));
                 Listing(whole[start..end] + rest.rows, rest.complete)
               else Listing(whole[start..], true)
  {
    hide Whole, Behind, UniqueIds, Take;
    var whole, end := Whole(table, q), start + Limit(q);
    PageAt(table, q, from, start);
    var page := ListSessions(table, q, from);
    TakeSlice(whole, start, Limit(q));
    if end <= |whole| {
      assert page.rows[|page.rows| - 1] == whole[end - 1];
      assert page.next.Some? && page.next.value.at == PlaceOf(whole[end - 1], q);
    }
  }

  lemma TakeSlice(rows: seq<Row>, start: nat, limit: nat)
    requires start <= |rows|
    ensures Take(rows[start..], limit) == if start + limit <= |rows| then rows[start..start + limit] else rows[start..]
  {
  }

  lemma SplitListing(whole: seq<Row>, start: nat, limit: nat, rest: seq<Row>)
    requires start + limit <= |whole|
    ensures whole[start..start + limit] + rest == whole[start..] <==> rest == whole[start + limit..]
  {
  }

  /** How many requests a list of `n` rows takes. */
  function PageCount(n: nat, limit: nat): (p: nat)
    requires 0 < limit
    ensures (p - 1) * limit <= n < p * limit
  {
    if n < limit then 1 else 1 + PageCount(n - limit, limit)
  }

  /** From a place with another number of rows behind it the rest of the list cannot follow. */
  lemma WrongRest(table: seq<Row>, q: Query, readBack: int -> int, requests: nat, place: Place, wanted: nat)
    requires UniqueIds(table) && wanted <= |Whole(table, q)|
    requires |Behind(Whole(table, q), q, place)| != |Whole(table, q)| - wanted
    ensures Follow(table, q, readBack, requests, Some(place)) != Listing(Whole(table, q)[wanted..], true)
  {
    hide Where, OrderBy, Precedes;
    var whole := Whole(table, q);
    WholeIsSorted(table, q);
    BehindIsSuffix(whole, q, place);
    var start := |whole| - |Behind(whole, q, place)|;
    PageAt(table, q, Some(place), start);
    if requests > 0 {
      var rows := Follow(table, q, readBack, requests, Some(place)).rows;
      if start < |whole| {
        assert rows[0] == whole[start];
        if wanted < |whole| {
          assert whole[wanted..][0] == whole[wanted];
          assert whole[start].id != whole[wanted].id;
        }
      } else {
        assert ListSessions(table, q, Some(place)).rows == [];
        assert rows == [];
      }
    }
  }

  /** Following `next_cursor` returns the filtered rows in sort order, each exactly once, and
      stops with the first page that is not full - if and only if the handler expects the kind of
      cursor the service issued and every cursor it follows reads back as a place between its row
      and the next one. */
  lemma {:induction false} PagingExactly(table: seq<Row>, q: Query, readBack: int -> int)
    requires UniqueIds(table) && ValidQuery(q)
    ensures var whole := Whole(table, q);
            Follow(table, q, readBack, PageCount(|whole|, Limit(q)), None) == Listing(whole, true)
            <==> || |whole| < Limit(q)
                 || (!(q.sortBy == "" && q.sortOrder == "asc") && CursorsSound(whole, q, readBack, 0))
  {
    hide CursorsSound, UniqueIds, Where, OrderBy;
    var whole := Whole(table, q);
    assert whole[0..] == whole;
    if q.sortBy == "" && q.sortOrder == "asc" {
      PageAt(table, q, None, 0);
      assert Follow(table, q, readBack, PageCount(|whole|, Limit(q)), None).complete <==> |whole| < Limit(q);
    } else {
      FollowFrom(table, q, readBack, PageCount(|whole|, Limit(q)), None, 0);
    }
  }

  // ---------------------------------------------------------------------
  // The four sort columns
  // ---------------------------------------------------------------------

  /** `%f` prints six decimals and the column has eight. */
  function Micros(cost: int): int {
    (cost + 50) / 100 * 100
  }

  /** What the database reads back from the cursor of a column. A timestamp is printed with all
      its digits; a count is printed and parsed in base ten. */
  function ReadBack(sortBy: string): int -> int {
    if sortBy == "total_cost_usd" then Micros
    else if sortBy == "span_count" then (n: int) => if n >= 0 then Decimal.Value(Decimal.Format(n)) else n
    else (t: int) => t
  }

  lemma {:induction false} OwnPlaceSound(rows: seq<Row>, q: Query, readBack: int -> int, start: nat)
    requires Sorted(rows, q) && start <= |rows|
    requires forall k :: 0 <= k < |rows| ==> readBack(PlaceOf(rows[k], q).val) == PlaceOf(rows[k], q).val
    ensures CursorsSound(rows, q, readBack, start)
    decreases |rows| - start
  {
    if start + Limit(q) <= |rows| {
      var k := start + Limit(q) - 1;
      assert Place(readBack(PlaceOf(rows[k], q).val), rows[k].id) == PlaceOf(rows[k], q);
      OwnPlaceSound(rows, q, readBack, start + Limit(q));
    }
  }

  /** Every column whose text is exact lists every table completely, in both directions. */
  lemma ExactColumnsPage(table: seq<Row>, q: Query)
    requires UniqueIds(table) && ValidQuery(q)
    requires SortBy(q) in ["started_at", "last_span_at", "span_count"] && !(q.sortBy == "" && q.sortOrder == "asc")
    ensures var whole := Whole(table, q);
            Follow(table, q, ReadBack(SortBy(q)), PageCount(|whole|, Limit(q)), None) == Listing(whole, true)
  {
    hide Where, OrderBy, Follow, CursorsSound, Micros;
    var whole, readBack := Whole(table, q), ReadBack(SortBy(q));
    WholeIsSorted(table, q);
    forall k | 0 <= k < |whole| ensures readBack(PlaceOf(whole[k], q).val) == PlaceOf(whole[k], q).val {
      if SortBy(q) == "span_count" { Decimal.ValueOfFormat(whole[k].spanCount); }
    }
    OwnPlaceSound(whole, q, readBack, 0);
    PagingExactly(table, q, readBack);
  }

  lemma MicrosExact(n: nat)
    requires n % 100 == 0
    ensures Micros(n) == n
  {
  }

  /** So does the cost column when every cost is a whole number of millionths. */
  lemma WholeMicrosPage(table: seq<Row>, q: Query)
    requires UniqueIds(table) && ValidQuery(q) && SortBy(q) == "total_cost_usd"
    requires forall r :: r in table ==> r.totalCost % 100 == 0
    ensures var whole := Whole(table, q);
            Follow(table, q, Micros, PageCount(|whole|, Limit(q)), None) == Listing(whole, true)
  {
    hide Where, OrderBy, Follow, CursorsSound, Micros;
    var whole := Whole(table, q);
    WholeIsSorted(table, q);
    forall k | 0 <= k < |whole| ensures Micros(PlaceOf(whole[k], q).val) == PlaceOf(whole[k], q).val {
      assert whole[k] in table;
      MicrosExact(whole[k].totalCost);
    }
    OwnPlaceSound(whole, q, Micros, 0);
    PagingExactly(table, q, Micros);
  }

  /** Otherwise it need not: with one row a page the second of these two rows is never listed,
      because the cursor behind the first reads back as zero. */
  lemma CostPagingSkips()
    ensures var a := Row(1, 1, 1, "", "completed", {}, 0, 0, 1, 49);
            var b := Row(2, 1, 1, "", "completed", {}, 0, 0, 1, 30);
            var q := Query(Filter(1, None, None, None, None, None, None), "total_cost_usd", "desc", 1);
            && Whole([a, b], q) == [a, b]
            && forall requests: nat :: b !in Follow([a, b], q, Micros, requests, None).rows
  {
  }

  /** Asked for in ascending order without a column, the second of these two rows is never listed
      and no listing completes: the cursor behind the first is refused. */
  lemma AscendingRefused(readBack: int -> int, requests: nat)
    ensures var a := Row(1, 1, 1, "", "completed", {}, 0, 0, 1, 0);
            var b := Row(2, 1, 1, "", "completed", {}, 5, 5, 1, 0);
            var q := Query(Filter(1, None, None, None, None, None, None), "", "asc", 1);
            && Whole([a, b], q) == [a, b]
            && b !in Follow([a, b], q, readBack, requests, None).rows
            && !Follow([a, b], q, readBack, requests, None).complete
  {
    var a := Row(1, 1, 1, "", "completed", {}, 0, 0, 1, 0);
    var b := Row(2, 1, 1, "", "completed", {}, 5, 5, 1, 0);
    var q := Query(Filter(1, None, None, None, None, None, None), "", "asc", 1);
    assert [a, b][1..] == [b] && [b][1..] == [];
    assert Where([b], q, None) == [b] && Where([a, b], q, None) == [a, b];
    assert OrderBy([b], q) == Insert(b, OrderBy([b][1..], q), q) == [b];
    assert !Precedes(PlaceOf(b, q), PlaceOf(a, q), Ascending(q));
    assert Precedes(PlaceOf(a, q), PlaceOf(b, q), Ascending(q));
    assert OrderBy([a, b], q) == Insert(a, OrderBy([a, b][1..], q), q) == [a, b];
    assert ListSessions([a, b], q, None) == Page([a], Some(SortCursor(Place(0, 1))));
    assert Decode(q, SortCursor(Place(0, 1)), readBack) == None;
  }
}
