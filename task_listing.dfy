/** The listing rules of the database store
    (core/repository/DatabaseTasksRepository.java, getAllTasks and
    getTotalTaskCount): defaults for missing parameters, page arithmetic,
    navigation page numbers, and the filtered, ordered, sliced page of rows.

    The task table is a sequence of rows in insertion order. The SQL column
    order of createdAt is not known (its type and collation are outside the
    source), so it is a parameter: `rank` maps a createdAt value to its
    position in that order. */
module TaskListing {
  import opened Wrappers
  import opened TaskModel

  /** Java's `short`: page and size arrive as Short. */
  type Short = x: int | -0x8000 <= x < 0x8000

  /** Values used when a query parameter is absent. */
  const DefaultStatus := "inbox"
  const DefaultOrder := "desc"
  const DefaultPage: Short := 1
  const DefaultSize: Short := 25

  /** The store's lists of known statuses and orders. */
  const StatusList: seq<string> := ["inbox", "done"]
  const OrderList: seq<string> := ["desc", "asc"]

  /** Failures the JDBC-backed store raises. EmptyResult: queryForObject
      found no row. ArithmeticError: the page count divides by a zero size.
      SqlError: the database refuses the listing query (a negative OFFSET or
      LIMIT, or an ORDER BY direction that is not a direction). */
  datatype StoreError = EmptyResult | ArithmeticError | SqlError

  datatype Direction = Ascending | Descending

  /** The parameters after defaults are filled in. */
  datatype Params = Params(status: string, order: string, page: Short, size: Short)

  /** A navigation link: the raw (un-defaulted) status, order and size of
      the request, and the page it points to. */
  datatype PageLink = PageLink(status: Option<string>, order: Option<string>, page: int, size: Option<Short>)

  /** The `_meta` object of a listing. */
  datatype PageMeta = PageMeta(
    total: nat, page: Short, size: Short,
    next: PageLink, prev: PageLink, first: PageLink, last: PageLink)

  /** The listing: `_meta` and `tasks`. */
  datatype TaskPage = TaskPage(meta: PageMeta, tasks: seq<Task>)

  /** Each absent parameter takes its default; a supplied one is used as given. */
  function WithDefaults(status: Option<string>, order: Option<string>, page: Option<Short>, size: Option<Short>): (p: Params)
    ensures status.Some? ==> p.status == status.value
    ensures status.None? ==> p.status == DefaultStatus
    ensures order.Some? ==> p.order == order.value
    ensures order.None? ==> p.order == DefaultOrder
    ensures page.Some? ==> p.page == page.value
    ensures page.None? ==> p.page == DefaultPage
    ensures size.Some? ==> p.size == size.value
    ensures size.None? ==> p.size == DefaultSize
  {
    Params(status.GetOr(DefaultStatus), order.GetOr(DefaultOrder), page.GetOr(DefaultPage), size.GetOr(DefaultSize))
  }

  /** The number of pages: the remainder test of the source, which is the
      ceiling of total / size. */
  function TotalPages(total: nat, size: int): (n: nat)
    requires size > 0
    ensures total == 0 ==> n == 0
    ensures total <= n * size
    ensures n > 0 ==> (n - 1) * size < total
  {
    var q, m := total / size, total % size;
    CeilingBounds(total, size, q, m);
    if m > 0 then q + 1 else q
  }

  /** With total = q * size + m and 0 <= m < size, q + 1 pages are needed
      when m > 0 and q pages otherwise. */
  lemma CeilingBounds(total: nat, size: int, q: nat, m: nat)
    requires size > 0 && m < size && total == q * size + m
    ensures m > 0 ==> total <= (q + 1) * size && q * size < total
    ensures m == 0 ==> total <= q * size && (q > 0 ==> (q - 1) * size < total)
  {
    assert (q + 1) * size == q * size + size;
    if q > 0 {
      assert (q - 1) * size == q * size - size;
    }
  }

  /** The number of rows before the page: size * (page - 1), computed in
      32-bit int arithmetic from two shorts, which cannot overflow. */
  function Skipped(size: Short, page: Short): (k: int)
    ensures page >= 1 && size >= 0 ==> k >= 0
    ensures page < 1 && size > 0 ==> k < 0
    ensures -0x8000_0000 <= k < 0x8000_0000
  {
    ProductBound(size, page - 1);
    size * (page - 1)
  }

  lemma ProductBound(a: int, b: int)
    requires -0x8000 <= a <= 0x8000 && -0x8001 <= b <= 0x8000
    ensures -0x8000 * 0x8001 <= a * b <= 0x8000 * 0x8001
  {
    var x: nat := if a >= 0 then a else -a;
    var y: nat := if b >= 0 then b else -b;
    MulMonotone(x, y, 0x8000, 0x8001);
    assert a * b == x * y || a * b == -(x * y);
  }

  lemma MulMonotone(x: nat, y: nat, maxX: nat, maxY: nat)
    requires x <= maxX && y <= maxY
    ensures x * y <= maxX * maxY
  {
    assert x * y <= maxX * y;
    assert maxX * y <= maxX * maxY;
  }

  /** The previous page: page 1 stays at 1, every other page steps back. */
  function PrevPage(page: int): (p: int)
    ensures page >= 1 ==> 1 <= p <= page
    ensures page != 1 ==> p == page - 1
  {
    if page == 1 then 1 else page - 1
  }

  /** The next page: 1 when there is exactly one page, otherwise page + 1,
      with no clamp at the last page. */
  function NextPage(page: int, totalPages: nat): (p: int)
    ensures totalPages == 1 ==> p == 1
    ensures totalPages != 1 ==> p == page + 1
    ensures totalPages != 1 && page >= totalPages ==> p > totalPages
  {
    if totalPages == 1 then 1 else page + 1
  }

  /** The SQL direction an ORDER BY value stands for, if any. */
  function DirectionOf(order: string): (d: Option<Direction>)
    ensures d == Some(Ascending) <==> order == PageOrderAsc
    ensures d == Some(Descending) <==> order == PageOrderDesc
    ensures d == None <==> order !in OrderList
  {
    if order == PageOrderAsc then Some(Ascending)
    else if order == PageOrderDesc then Some(Descending)
    else None
  }

  const PageOrderAsc := "asc"
  const PageOrderDesc := "desc"

  /** getTotalTaskCount: SELECT COUNT(*) ... WHERE status = ?. */
  function CountWithStatus(rows: seq<Task>, status: string): (n: nat)
    ensures n <= |rows|
  {
    if rows == [] then 0
    else (if rows[0].status == status then 1 else 0) + CountWithStatus(rows[1..], status)
  }

  /** The rows WHERE status = ?, in table order. */
  function WithStatus(rows: seq<Task>, status: string): (r: seq<Task>)
    ensures forall t :: t in r ==> t in rows && t.status == status
    ensures forall t :: t in rows && t.status == status ==> t in r
  {
    if rows == [] then []
    else if rows[0].status == status then [rows[0]] + WithStatus(rows[1..], status)
    else WithStatus(rows[1..], status)
  }

  /** The two queries of a listing agree: COUNT(*) is the number of rows the
      SELECT filters. */
  lemma {:induction false} CountMatchesFilter(rows: seq<Task>, status: string)
    ensures CountWithStatus(rows, status) == |WithStatus(rows, status)|
  {
    if rows != [] {
      CountMatchesFilter(rows[1..], status);
    }
  }

  /** The sort key of a row: ascending createdAt, or its reverse. */
  function Key(t: Task, dir: Direction, rank: Option<string> -> int): int {
    if dir == Ascending then rank(t.createdAt) else -rank(t.createdAt)
  }

  predicate SortedBy(s: seq<Task>, dir: Direction, rank: Option<string> -> int) {
    forall i, j :: 0 <= i < j < |s| ==> Key(s[i], dir, rank) <= Key(s[j], dir, rank)
  }

  /** Places `x` before the first element it does not come after. */
  function Insert(x: Task, s: seq<Task>, dir: Direction, rank: Option<string> -> int): (r: seq<Task>)
    ensures multiset(r) == multiset(s) + multiset{x}
    ensures SortedBy(s, dir, rank) ==> SortedBy(r, dir, rank)
  {
    if s == [] || Key(x, dir, rank) <= Key(s[0], dir, rank) then [x] + s
    else
      assert s == [s[0]] + s[1..];
      var rest := Insert(x, s[1..], dir, rank);
      InsertSortedStep(x, s, rest, dir, rank);
      [s[0]] + rest
  }

  /** The step of Insert past the first element keeps the order. */
  lemma InsertSortedStep(x: Task, s: seq<Task>, rest: seq<Task>, dir: Direction, rank: Option<string> -> int)
    requires s != [] && Key(s[0], dir, rank) < Key(x, dir, rank)
    requires multiset(rest) == multiset(s[1..]) + multiset{x}
    requires SortedBy(s, dir, rank) ==> SortedBy(rest, dir, rank)
    ensures SortedBy(s, dir, rank) ==> SortedBy([s[0]] + rest, dir, rank)
  {
    if SortedBy(s, dir, rank) {
      var r := [s[0]] + rest;
      forall j | 0 <= j < |rest| ensures Key(s[0], dir, rank) <= Key(rest[j], dir, rank) {
        assert rest[j] in multiset(rest);
        if rest[j] != x {
          assert rest[j] in multiset(s[1..]);
          var k :| 0 <= k < |s[1..]| && s[1..][k] == rest[j];
          assert s[k + 1] == rest[j];
        }
      }
      forall i, j | 0 <= i < j < |r| ensures Key(r[i], dir, rank) <= Key(r[j], dir, rank) {
        if i == 0 {
          assert r[j] == rest[j - 1];
        } else {
          assert r[i] == rest[i - 1] && r[j] == rest[j - 1];
        }
      }
    }
  }

  /** ORDER BY createdAt in direction `dir`: an insertion sort, so rows
      with equal keys keep their table order. */
  function SortByCreatedAt(s: seq<Task>, dir: Direction, rank: Option<string> -> int): (r: seq<Task>)
    ensures multiset(r) == multiset(s)
    ensures SortedBy(r, dir, rank)
  {
    if s == [] then []
    else
      assert s == [s[0]] + s[1..];
      Insert(s[0], SortByCreatedAt(s[1..], dir, rank), dir, rank)
  }

  /** OFFSET `skip` LIMIT `limit`. */
  function Slice(s: seq<Task>, skip: nat, limit: nat): (r: seq<Task>)
    ensures |r| <= limit
    ensures skip < |s| ==> r == s[skip..if skip + limit < |s| then skip + limit else |s|]
    ensures skip >= |s| ==> r == []
  {
    if skip >= |s| then [] else s[skip..if skip + limit < |s| then skip + limit else |s|]
  }

  /** The row mapper of the listing query: the status column is not read,
      the status asked for is used instead. */
  function ListedTask(row: Task, statusToUse: string): Task {
    Task(row.id, row.text, statusToUse, row.createdAt, row.updatedAt)
  }

  function MapListed(rows: seq<Task>, statusToUse: string): (r: seq<Task>)
    ensures |r| == |rows|
    ensures forall i :: 0 <= i < |rows| ==> r[i] == ListedTask(rows[i], statusToUse)
  {
    seq(|rows|, i requires 0 <= i < |rows| => ListedTask(rows[i], statusToUse))
  }

  /** The rows of one page: filtered, ordered, offset and limited. */
  function PageRows(rows: seq<Task>, status: string, dir: Direction, rank: Option<string> -> int, skip: nat, size: nat): seq<Task> {
    Slice(SortByCreatedAt(WithStatus(rows, status), dir, rank), skip, size)
  }

  /** getAllTasks: the `_meta` and `tasks` of one page, or the failure the
      source meets (division by a zero size, then a query the database
      refuses). */
  function Listing(rows: seq<Task>, status: Option<string>, order: Option<string>, page: Option<Short>,
                   size: Option<Short>, rank: Option<string> -> int): Result<TaskPage, StoreError>
  {
    var p := WithDefaults(status, order, page, size);
    if p.size == 0 then Failure(ArithmeticError)
    else if p.size < 0 || Skipped(p.size, p.page) < 0 || DirectionOf(p.order).None? then Failure(SqlError)
    else
      var meta := MetaOf(status, order, size, p, CountWithStatus(rows, p.status));
      var selected := PageRows(rows, p.status, DirectionOf(p.order).value, rank, Skipped(p.size, p.page), p.size);
      Success(TaskPage(meta, MapListed(selected, p.status)))
  }

  /** The `_meta` node: the total, the defaulted page and size, and the
      four links, each keeping the raw status, order and size. */
  function MetaOf(status: Option<string>, order: Option<string>, size: Option<Short>, p: Params, total: nat): (m: PageMeta)
    requires p.size > 0
    ensures m.total == total && m.page == p.page && m.size == p.size
    ensures forall l :: l in {m.next, m.prev, m.first, m.last} ==> l.status == status && l.order == order && l.size == size
    ensures m.first.page == 1
    ensures total == 0 ==> m.last.page == 0
    ensures total <= m.last.page * p.size && (total > 0 ==> (m.last.page - 1) * p.size < total)
    ensures p.page >= 1 ==> 1 <= m.prev.page <= p.page
    ensures 1 <= p.page < m.last.page ==> m.next.page == p.page + 1
  {
    var totalPages := TotalPages(total, p.size);
    PageMeta(total, p.page, p.size,
      PageLink(status, order, NextPage(p.page, totalPages), size),
      PageLink(status, order, PrevPage(p.page), size),
      PageLink(status, order, 1, size),
      PageLink(status, order, totalPages, size))
  }

  /** The listing's row mapper changes nothing on rows that already carry
      the status asked for. */
  lemma MapListedKeepsRows(rows: seq<Task>, status: string)
    requires forall t :: t in rows ==> t.status == status
    ensures MapListed(rows, status) == rows
  {
    forall i | 0 <= i < |rows| ensures MapListed(rows, status)[i] == rows[i] {
      assert rows[i] in rows;
    }
  }

  /** A listing succeeds exactly when the defaulted size is positive, the
      defaulted page is at least 1 and the defaulted order is a direction;
      a zero size fails first, on the division. */
  lemma ListingSucceedsIff(rows: seq<Task>, status: Option<string>, order: Option<string>, page: Option<Short>,
                           size: Option<Short>, rank: Option<string> -> int)
    ensures var p := WithDefaults(status, order, page, size);
      Listing(rows, status, order, page, size, rank).Success? <==> p.size > 0 && p.page >= 1 && p.order in OrderList
    ensures WithDefaults(status, order, page, size).size == 0 ==>
      Listing(rows, status, order, page, size, rank) == Failure(ArithmeticError)
  {
  }

  /** What a successful listing holds: at most `size` tasks, each a row of
      the table with the status asked for, ordered by createdAt in the
      direction asked for, and exactly the slice at the offset of the page;
      `_meta` reports the defaulted page and size, the number of rows with
      that status, and the navigation pages. */
  lemma ListingPage(rows: seq<Task>, status: Option<string>, order: Option<string>, page: Option<Short>,
                    size: Option<Short>, rank: Option<string> -> int)
    requires Listing(rows, status, order, page, size, rank).Success?
    ensures var p := WithDefaults(status, order, page, size);
      var pg := Listing(rows, status, order, page, size, rank).value;
      var dir := DirectionOf(p.order).value;
      && |pg.tasks| <= p.size
      && (forall t :: t in pg.tasks ==> t in rows && t.status == p.status)
      && SortedBy(pg.tasks, dir, rank)
      && pg.tasks == PageRows(rows, p.status, dir, rank, Skipped(p.size, p.page), p.size)
      && pg.meta.total == |WithStatus(rows, p.status)|
      && pg.meta.page == p.page && pg.meta.size == p.size
      && pg.meta.first.page == 1
      && pg.meta.last.page == TotalPages(pg.meta.total, p.size)
      && pg.meta.prev.page == PrevPage(p.page)
      && pg.meta.next.page == NextPage(p.page, pg.meta.last.page)
  {
    var p := WithDefaults(status, order, page, size);
    var dir := DirectionOf(p.order).value;
    var filtered := WithStatus(rows, p.status);
    var sorted := SortByCreatedAt(filtered, dir, rank);
    var selected := PageRows(rows, p.status, dir, rank, Skipped(p.size, p.page), p.size);
    forall t | t in selected ensures t in rows && t.status == p.status {
      assert t in sorted;
      assert t in multiset(sorted);
      assert t in multiset(filtered);
    }
    MapListedKeepsRows(selected, p.status);
    CountMatchesFilter(rows, p.status);
    SliceKeepsOrder(sorted, Skipped(p.size, p.page), p.size, dir, rank);
  }

  lemma SliceKeepsOrder(s: seq<Task>, skip: nat, limit: nat, dir: Direction, rank: Option<string> -> int)
    requires SortedBy(s, dir, rank)
    ensures SortedBy(Slice(s, skip, limit), dir, rank)
  {
    var r := Slice(s, skip, limit);
    if skip < |s| {
      forall i, j | 0 <= i < j < |r| ensures Key(r[i], dir, rank) <= Key(r[j], dir, rank) {
        assert r[i] == s[skip + i] && r[j] == s[skip + j];
      }
    }
  }

  /** With no row of the status asked for, a successful listing is empty,
      reports a total of 0 and a last page of 0, and its next link still
      points one page ahead. */
  lemma EmptyStatusListing(rows: seq<Task>, status: Option<string>, order: Option<string>, page: Option<Short>,
                           size: Option<Short>, rank: Option<string> -> int)
    requires Listing(rows, status, order, page, size, rank).Success?
    requires forall t :: t in rows ==> t.status != WithDefaults(status, order, page, size).status
    ensures var pg := Listing(rows, status, order, page, size, rank).value;
      pg.tasks == [] && pg.meta.total == 0 && pg.meta.last.page == 0
      && pg.meta.next.page == pg.meta.page + 1
  {
    var p := WithDefaults(status, order, page, size);
    var filtered := WithStatus(rows, p.status);
    assert filtered == [] by {
      assert forall t :: t !in filtered;
    }
    ListingPage(rows, status, order, page, size, rank);
  }

  /** The offset of the next page is one page size past the offset of
      this one, so consecutive pages of the listing query meet without gap
      or overlap. */
  lemma SkippedStep(size: Short, page: Short)
    requires page < 0x7FFF
    ensures Skipped(size, page + 1) == Skipped(size, page) + size
  {
  }

  /** Pages 1 to n of `s`, one after the other; page k starts at offset
      size * (k - 1), the offset Skipped gives page k. */
  function PagesUpTo(s: seq<Task>, size: nat, n: nat): seq<Task>
    requires size > 0
  {
    if n == 0 then [] else PagesUpTo(s, size, n - 1) + Slice(s, size * (n - 1), size)
  }

  /** The first n pages tile the first n * size rows, without gap or overlap. */
  lemma {:induction false} PagesUpToPrefix(s: seq<Task>, size: nat, n: nat)
    requires size > 0
    ensures PagesUpTo(s, size, n) == s[..if n * size < |s| then n * size else |s|]
  {
    if n > 0 {
      PagesUpToPrefix(s, size, n - 1);
      var a := size * (n - 1);
      NextOffset(n, size);
      var prev := if a < |s| then a else |s|;
      var next := if a + size < |s| then a + size else |s|;
      PrefixSplit(s, prev, next);
    }
  }

  /** Page n ends one page size after page n - 1. */
  lemma NextOffset(n: nat, size: nat)
    requires n > 0
    ensures n * size == size * (n - 1) + size
    ensures (n - 1) * size == size * (n - 1)
  {
  }

  lemma PrefixSplit(s: seq<Task>, a: nat, b: nat)
    requires a <= b <= |s|
    ensures s[..b] == s[..a] + s[a..b]
  {
  }

  /** Walking the pages from 1 to the last page returns every row of the
      filtered, ordered listing exactly once, in order. */
  lemma PagesCoverAll(s: seq<Task>, size: nat)
    requires size > 0
    ensures PagesUpTo(s, size, TotalPages(|s|, size)) == s
  {
    PagesUpToPrefix(s, size, TotalPages(|s|, size));
  }
}
