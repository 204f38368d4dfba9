/** Newest-first keyset pagination over a table that may change between pages. */
module Pagination {
  import opened Wrappers
  import opened Sorting

  const PAGE_LIMIT_MAX := 200

  datatype Row = Row(timestamp: int, id: int)

  datatype Page = Page(items: seq<Row>, next: Option<Row>)

  predicate NewestLe(a: Row, b: Row) {
    a.timestamp > b.timestamp || (a.timestamp == b.timestamp && a.id >= b.id)
  }

  lemma {:induction false} NewestLeIsTotal()
    ensures TotalOrder(NewestLe)
  {}

  function NormalizePageLimit(limit: int): (r: Result<nat, string>)
    ensures r.Success? <==> 1 <= limit <= PAGE_LIMIT_MAX
    ensures r.Success? ==> r.value == limit
  {
    if limit < 1 || limit > PAGE_LIMIT_MAX then Failure("limit") else Success(limit)
  }

  /** The keyset filter: strictly past the cursor. */
  predicate Past(cursor: Option<Row>, r: Row) {
    cursor.Some? ==>
      || r.timestamp < cursor.value.timestamp
      || (r.timestamp == cursor.value.timestamp && r.id < cursor.value.id)
  }

  function Filter(rows: seq<Row>, cursor: Option<Row>): seq<Row> {
    if rows == [] then []
    else Filter(rows[..|rows| - 1], cursor) + if Past(cursor, rows[|rows| - 1]) then [rows[|rows| - 1]] else []
  }

  function Listing(table: seq<Row>, cursor: Option<Row>): seq<Row> {
    Sort(NewestLe, Filter(table, cursor))
  }

  function Paginate(table: seq<Row>, cursor: Option<Row>, limit: nat): Page {
    var listing := Listing(table, cursor);
    var rows := if |listing| > limit + 1 then listing[..limit + 1] else listing;
    var hasMore := |rows| > limit;
    var items := if hasMore then rows[..limit] else rows;
    Page(items, if hasMore && items != [] then Some(items[|items| - 1]) else None)
  }

  /** Following next_cursor, one table state per request. */
  function Follow(tables: seq<seq<Row>>, cursor: Option<Row>, limit: nat): seq<Page> {
    if tables == [] then []
    else
      var page := Paginate(tables[0], cursor, limit);
      [page] + if page.next.None? then [] else Follow(tables[1..], page.next, limit)
  }

  function Items(pages: seq<Page>): seq<Row> {
    if pages == [] then [] else pages[0].items + Items(pages[1..])
  }

  predicate Completed(pages: seq<Page>) {
    pages != [] && pages[|pages| - 1].next.None?
  }

  /** Later, or of the same time with the greater id. */
  predicate Newer(a: Row, b: Row) {
    a.timestamp > b.timestamp || (a.timestamp == b.timestamp && a.id > b.id)
  }

  /** Strictly newest first. */
  predicate Descending(rows: seq<Row>) {
    forall i, j :: 0 <= i < j < |rows| ==> Newer(rows[i], rows[j])
  }

  // ----- one page -----

  lemma {:induction false} FilterContents(rows: seq<Row>, cursor: Option<Row>, r: Row)
    ensures multiset(Filter(rows, cursor))[r] == if Past(cursor, r) then multiset(rows)[r] else 0
  {
    if rows != [] {
      FilterContents(rows[..|rows| - 1], cursor, r);
      assert rows == rows[..|rows| - 1] + [rows[|rows| - 1]];
    }
  }

  lemma {:induction false} NoRepeatsCounts(rows: seq<Row>, r: Row)
    requires NoRepeats(rows)
    ensures multiset(rows)[r] <= 1
  {
    if rows != [] {
      var init := rows[..|rows| - 1];
      NoRepeatsCounts(init, r);
      assert rows == init + [rows[|rows| - 1]];
      if r == rows[|rows| - 1] {
        assert r !in init;
        assert multiset(init)[r] == 0;
      }
    }
  }

  lemma {:induction false} RepeatCounts(rows: seq<Row>, i: nat, j: nat)
    requires i < j < |rows| && rows[i] == rows[j]
    ensures multiset(rows)[rows[i]] >= 2
  {
    assert rows == rows[..j] + [rows[j]] + rows[j + 1..];
    assert rows[..j][i] == rows[i];
    assert rows[i] in multiset(rows[..j]);
  }

  /** A page's listing: the rows past the cursor, each once, strictly newest first. */
  lemma {:induction false} ListingFacts(table: seq<Row>, cursor: Option<Row>)
    requires NoRepeats(table)
    ensures Descending(Listing(table, cursor))
    ensures forall r :: r in Listing(table, cursor) <==> r in table && Past(cursor, r)
  {
    var listing := Listing(table, cursor);
    NewestLeIsTotal();
    SortIsSorted(NewestLe, Filter(table, cursor));
    forall r ensures r in listing <==> r in table && Past(cursor, r) {
      FilterContents(table, cursor, r);
      assert r in listing <==> r in multiset(listing);
      assert r in table <==> r in multiset(table);
    }
    forall i, j | 0 <= i < j < |listing| ensures Newer(listing[i], listing[j]) {
      FilterContents(table, cursor, listing[i]);
      NoRepeatsCounts(table, listing[i]);
      assert NewestLe(listing[i], listing[j]);
      if listing[i] == listing[j] {
        RepeatCounts(listing, i, j);
        assert false;
      }
    }
  }

  lemma {:induction false} PageIsPrefix(table: seq<Row>, cursor: Option<Row>, limit: nat)
    ensures var listing, page := Listing(table, cursor), Paginate(table, cursor, limit);
            && page.items == (if |listing| > limit then listing[..limit] else listing)
            && page.next == (if |listing| > limit && limit > 0 then Some(listing[limit - 1]) else None)
  {
    var listing := Listing(table, cursor);
    if |listing| > limit + 1 {
      assert listing[..limit + 1][..limit] == listing[..limit];
    }
  }

  // ----- a changing table -----

  predicate Valid(tables: seq<seq<Row>>) {
    forall k :: 0 <= k < |tables| ==> NoRepeats(tables[k])
  }

  lemma {:induction false} PastIsTransitive(a: Option<Row>, b: Row, c: Row)
    requires Past(a, b) && Past(Some(b), c)
    ensures Past(a, c)
  {}

  predicate AllPast(cursor: Option<Row>, rows: seq<Row>) {
    forall i :: 0 <= i < |rows| ==> Past(cursor, rows[i])
  }

  lemma {:induction false} AllPastStays(cursor: Option<Row>, last: Row, rows: seq<Row>)
    requires Past(cursor, last) && AllPast(Some(last), rows)
    ensures AllPast(cursor, rows)
  {
    forall i | 0 <= i < |rows| ensures Past(cursor, rows[i]) { PastIsTransitive(cursor, last, rows[i]); }
  }

  lemma {:induction false} JoinDescending(a: seq<Row>, b: seq<Row>)
    requires Descending(a) && Descending(b)
    requires forall i :: 0 <= i < |a| ==> AllPast(Some(a[i]), b)
    ensures Descending(a + b)
  {}

  /** A page, then rows that lie past its cursor. */
  lemma {:induction false} PageThenLater(table: seq<Row>, cursor: Option<Row>, limit: nat, later: seq<Row>)
    requires NoRepeats(table) && Descending(later)
    requires var next := Paginate(table, cursor, limit).next; if next.Some? then AllPast(next, later) else later == []
    ensures var items := Paginate(table, cursor, limit).items;
            Descending(items + later) && AllPast(cursor, items + later)
  {
    var page, listing := Paginate(table, cursor, limit), Listing(table, cursor);
    ListingFacts(table, cursor);
    PageIsPrefix(table, cursor, limit);
    assert forall i :: 0 <= i < |page.items| ==> page.items[i] == listing[i] && listing[i] in listing;
    if page.next.Some? {
      var last := page.next.value;
      AllPastStays(cursor, last, later);
      forall i | 0 <= i < |page.items| ensures AllPast(Some(page.items[i]), later) {
        if i < limit - 1 { AllPastStays(Some(page.items[i]), last, later); }
      }
    }
    JoinDescending(page.items, later);
  }

  /** Whatever is inserted or deleted between the requests, no row is returned twice: the items of all
      pages together are strictly newest first. */
  lemma {:induction false} NothingTwice(tables: seq<seq<Row>>, cursor: Option<Row>, limit: nat)
    requires Valid(tables)
    ensures var items := Items(Follow(tables, cursor, limit));
            && Descending(items) && NoRepeats(items) && AllPast(cursor, items)
            && (cursor.Some? ==> forall i :: 0 <= i < |items| ==> Newer(cursor.value, items[i]))
  {
    if tables != [] {
      var page := Paginate(tables[0], cursor, limit);
      var rest := if page.next.None? then [] else Follow(tables[1..], page.next, limit);
      if page.next.Some? {
        NothingTwice(tables[1..], page.next, limit);
      }
      assert ([page] + rest)[1..] == rest;
      PageThenLater(tables[0], cursor, limit, Items(rest));
    }
  }

  lemma {:induction false} OnPageOrPast(table: seq<Row>, cursor: Option<Row>, limit: nat, r: Row)
    requires NoRepeats(table) && limit >= 1 && r in table && Past(cursor, r)
    ensures var page := Paginate(table, cursor, limit); r in page.items || (page.next.Some? && Past(page.next, r))
  {
    var page, listing := Paginate(table, cursor, limit), Listing(table, cursor);
    ListingFacts(table, cursor);
    PageIsPrefix(table, cursor, limit);
    var at :| 0 <= at < |listing| && listing[at] == r;
    if at < |page.items| {
      assert page.items[at] == r;
    } else {
      assert Past(Some(listing[limit - 1]), listing[at]);
    }
  }

  /** A completed traversal returns every row that was there at each of its requests. */
  lemma {:induction false} NothingMissed(tables: seq<seq<Row>>, cursor: Option<Row>, limit: nat, r: Row)
    requires Valid(tables) && limit >= 1 && (cursor.Some? ==> Newer(cursor.value, r))
    requires Completed(Follow(tables, cursor, limit))
    requires forall k :: 0 <= k < |Follow(tables, cursor, limit)| && k < |tables| ==> r in tables[k]
    ensures r in Items(Follow(tables, cursor, limit))
  {
    var page := Paginate(tables[0], cursor, limit);
    var rest := if page.next.None? then [] else Follow(tables[1..], page.next, limit);
    assert ([page] + rest)[1..] == rest;
    OnPageOrPast(tables[0], cursor, limit, r);
    if r !in page.items {
      assert forall k :: 0 <= k < |rest| && k < |tables[1..]| ==> tables[1..][k] == tables[k + 1];
      NothingMissed(tables[1..], page.next, limit, r);
    }
  }

  // ----- a fixed table -----

  lemma {:induction false} NonEmptyHasRow(rows: seq<Row>)
    requires rows != []
    ensures exists r :: r in rows
  {
    assert rows[0] in rows;
  }

  /** A set of rows has one strictly descending listing. */
  lemma {:induction false} SameDescending(a: seq<Row>, b: seq<Row>)
    requires Descending(a) && Descending(b) && forall r :: r in a <==> r in b
    ensures a == b
  {
    if a == [] {
      if b != [] {
        NonEmptyHasRow(b);
        assert false;
      }
    } else {
      assert a[0] in b && b != [];
      assert b[0] in a;
      var i :| 0 <= i < |b| && b[i] == a[0];
      var j :| 0 <= j < |a| && a[j] == b[0];
      assert a[0] == b[0];
      forall r ensures r in a[1..] <==> r in b[1..] {
        assert r in a <==> r == a[0] || r in a[1..];
        assert r in b <==> r == b[0] || r in b[1..];
        assert a[0] !in a[1..] && b[0] !in b[1..];
      }
      SameDescending(a[1..], b[1..]);
      assert a == [a[0]] + a[1..] && b == [b[0]] + b[1..];
    }
  }

  lemma {:induction false} ListingContinues(table: seq<Row>, cursor: Option<Row>, limit: nat)
    requires NoRepeats(table) && 1 <= limit < |Listing(table, cursor)|
    ensures Listing(table, Some(Listing(table, cursor)[limit - 1])) == Listing(table, cursor)[limit..]
  {
    var listing := Listing(table, cursor);
    var last := listing[limit - 1];
    var next := Listing(table, Some(last));
    ListingFacts(table, cursor);
    ListingFacts(table, Some(last));
    assert last in listing;
    forall r | r in next ensures r in listing[limit..] {
      PastIsTransitive(cursor, last, r);
      var i :| 0 <= i < |listing| && listing[i] == r;
      assert i >= limit;
      assert listing[limit..][i - limit] == r;
    }
    forall r | r in listing[limit..] ensures r in next {
      var i :| 0 <= i < |listing| - limit && listing[limit..][i] == r;
      assert listing[limit + i] == r && r in listing && Past(Some(last), listing[limit + i]);
    }
    SameDescending(next, listing[limit..]);
  }

  function PageCount(rows: nat, limit: nat): (k: nat)
    requires limit >= 1
    ensures k >= 1
  {
    if rows <= limit then 1 else 1 + PageCount(rows - limit, limit)
  }

  /** PageCount is max(1, ceil(rows / limit)). */
  lemma {:induction false} PageCountIsCeiling(rows: nat, limit: nat)
    requires limit >= 1
    ensures var k := PageCount(rows, limit); rows <= k * limit && (k > 1 ==> (k - 1) * limit < rows)
  {
    if rows > limit {
      PageCountIsCeiling(rows - limit, limit);
      var k := PageCount(rows - limit, limit);
      assert (k + 1) * limit == k * limit + limit && k * limit == (k - 1) * limit + limit;
    }
  }

  predicate Unchanging(tables: seq<seq<Row>>, table: seq<Row>) {
    forall k :: 0 <= k < |tables| ==> tables[k] == table
  }

  /** Over a fixed table the pages concatenate to the newest-first listing past the cursor, in
      max(1, ceil(n / limit)) requests. */
  lemma {:induction false} FixedTableTraversal(table: seq<Row>, tables: seq<seq<Row>>, cursor: Option<Row>, limit: nat)
    requires NoRepeats(table) && limit >= 1 && Unchanging(tables, table)
    requires |tables| >= PageCount(|Listing(table, cursor)|, limit)
    ensures var pages := Follow(tables, cursor, limit);
            && Items(pages) == Listing(table, cursor)
            && |pages| == PageCount(|Listing(table, cursor)|, limit)
            && Completed(pages)
    decreases |tables|
  {
    var listing := Listing(table, cursor);
    PageIsPrefix(table, cursor, limit);
    var page := Paginate(table, cursor, limit);
    if |listing| > limit {
      ListingContinues(table, cursor, limit);
      FixedTableTraversal(table, tables[1..], page.next, limit);
      var rest := Follow(tables[1..], page.next, limit);
      assert ([page] + rest)[1..] == rest;
      assert listing == listing[..limit] + listing[limit..];
    } else {
      assert [page][1..] == [] && Items([page]) == page.items + Items([]);
    }
  }

  lemma {:induction false} FilterNone(rows: seq<Row>)
    ensures Filter(rows, None) == rows
  {
    if rows != [] {
      FilterNone(rows[..|rows| - 1]);
    }
  }

  /** From the first page on, the traversal of a fixed table is its complete newest-first ordering. */
  lemma {:induction false} FixedTableOrder(table: seq<Row>, tables: seq<seq<Row>>, limit: nat)
    requires NoRepeats(table) && limit >= 1 && Unchanging(tables, table) && |tables| >= PageCount(|table|, limit)
    ensures var pages := Follow(tables, None, limit);
            && Items(pages) == Sort(NewestLe, table) && Descending(Items(pages))
            && |pages| == PageCount(|table|, limit) && Completed(pages)
            && forall r :: r in Items(pages) <==> r in table
  {
    FilterNone(table);
    SortContents(NewestLe, table);
    FixedTableTraversal(table, tables, None, limit);
    ListingFacts(table, None);
  }

  lemma {:induction false} PagesAreShort(tables: seq<seq<Row>>, cursor: Option<Row>, limit: nat)
    ensures forall k :: 0 <= k < |Follow(tables, cursor, limit)| ==> |Follow(tables, cursor, limit)[k].items| <= limit
  {
    if tables != [] && Paginate(tables[0], cursor, limit).next.Some? {
      PagesAreShort(tables[1..], Paginate(tables[0], cursor, limit).next, limit);
    }
  }

  /** The limits accepted are those with which a traversal works: it visits the whole fixed table in pages
      of at most the maximum. With the limit 0, which is refused, a page of a table that has rows is empty
      and has no successor. */
  lemma {:induction false} AcceptedLimitsTraverse(table: seq<Row>, tables: seq<seq<Row>>, limit: int)
    requires NoRepeats(table) && Unchanging(tables, table)
    ensures NormalizePageLimit(limit).Success? && |tables| >= PageCount(|table|, NormalizePageLimit(limit).value) ==>
              var pages := Follow(tables, None, NormalizePageLimit(limit).value);
              && Items(pages) == Sort(NewestLe, table)
              && forall k :: 0 <= k < |pages| ==> |pages[k].items| <= PAGE_LIMIT_MAX
    ensures !NormalizePageLimit(0).Success? && Paginate(table, None, 0) == Page([], None)
  {
    if NormalizePageLimit(limit).Success? && |tables| >= PageCount(|table|, limit) {
      FixedTableOrder(table, tables, limit);
      PagesAreShort(tables, None, limit);
    }
  }
}
