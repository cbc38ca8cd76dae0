/** Cursor pagination: what a client reads by following cursors, against pages cut by offset and limit. */
module Paginator {
  import opened Option
  import opened IntArith

  /** A table row by column name; keys are whole numbers, of which only zero is falsy. */
  type Row = map<string, int>

  /** A decoded cursor: its fields in order. */
  type Cursor = seq<(string, int)>

  datatype Filter = Filter(column: string, value: int, above: bool)

  type Query = seq<Filter>

  // ---------- apply_cursor_to_query ----------

  predicate Beyond(x: int, y: int, ascending: bool) { if ascending then x > y else x < y }

  predicate Passes(row: Row, f: Filter) { f.column in row && Beyond(row[f.column], f.value, f.above) }

  predicate Matches(row: Row, q: Query) { forall f | f in q :: Passes(row, f) }

  function Applied(query: Query, cursor: Cursor, columns: set<string>, ascending: bool): Query
    decreases |cursor|
  {
    if cursor == [] then query
    else
      var (field, value) := cursor[0];
      Applied(if field in columns then query + [Filter(field, value, ascending)] else query, cursor[1..], columns,
              ascending)
  }

  /** The filtered query keeps a row exactly when every cursor field that is a column has moved on. */
  lemma {:induction false} AppliedMatches(row: Row, query: Query, cursor: Cursor, columns: set<string>, ascending: bool)
    ensures Matches(row, Applied(query, cursor, columns, ascending)) <==>
            && Matches(row, query)
            && forall p | p in cursor && p.0 in columns :: p.0 in row && Beyond(row[p.0], p.1, ascending)
    decreases |cursor|
  {
    if cursor == [] {
    } else {
      var (field, value) := cursor[0];
      var f := Filter(field, value, ascending);
      var next := if field in columns then query + [f] else query;
      AppliedMatches(row, next, cursor[1..], columns, ascending);
      assert cursor == [(field, value)] + cursor[1..];
      assert Matches(row, query + [f]) <==> Matches(row, query) && Passes(row, f);
    }
  }

  method ApplyCursor(query: Query, cursor: Cursor, columns: set<string>, ascending: bool) returns (q: Query)
    ensures q == Applied(query, cursor, columns, ascending)
    ensures forall row :: Matches(row, q) <==>
              Matches(row, query)
              && forall p | p in cursor && p.0 in columns :: p.0 in row && Beyond(row[p.0], p.1, ascending)
  {
    q := query;
    for k := 0 to |cursor|
      invariant Applied(q, cursor[k..], columns, ascending) == Applied(query, cursor, columns, ascending)
    {
      assert cursor[k..][1..] == cursor[k + 1..];
      var (field, value) := cursor[k];
      if field in columns {
        q := q + [Filter(field, value, ascending)];
      }
    }
    forall row ensures Matches(row, q) <==>
                Matches(row, query)
                && forall p | p in cursor && p.0 in columns :: p.0 in row && Beyond(row[p.0], p.1, ascending)
    {
      AppliedMatches(row, query, cursor, columns, ascending);
    }
  }

  // ---------- pages ----------

  datatype Page = Page(items: seq<Row>, hasNext: bool, nextCursor: Option<Cursor>)

  /** From `limit + 1` fetched rows: a page, and a cursor unless its last key is missing or falsy. */
  function CreateCursorResponse(items: seq<Row>, field: string, size: nat): Page {
    var hasNext := |items| > size;
    var page := if hasNext then items[..size] else items;
    var key := if page != [] && field in page[|page| - 1] then page[|page| - 1][field] else 0;
    Page(page, hasNext, if hasNext && key != 0 then Some([(field, key)]) else None)
  }

  function TotalPages(total: nat, size: nat): nat
    requires size >= 1
  {
    (total + size - 1) / size
  }

  /** LIMIT size OFFSET (page - 1) * size. */
  function OffsetPage(table: seq<Row>, page: nat, size: nat): seq<Row>
    requires page >= 1
  {
    Take(Drop(table, (page - 1) * size), size)
  }

  function Take(s: seq<Row>, n: nat): seq<Row> { if |s| > n then s[..n] else s }

  function Drop(s: seq<Row>, n: nat): seq<Row> { if |s| > n then s[n..] else [] }

  datatype Paged = Paged(items: seq<Row>, total: nat, page: nat, pageSize: nat, hasNext: bool, hasPrev: bool)

  function Paginate(items: seq<Row>, page: nat, size: nat, total: nat): (r: Paged)
    requires size >= 1
    ensures r.items == items && r.total == total && r.page == page && r.pageSize == size
  {
    Paged(items, total, page, size, page < TotalPages(total, size), page > 1)
  }

  // ---------- the walk ----------

  function Select(table: seq<Row>, q: Query): seq<Row> {
    if table == [] then [] else (if Matches(table[0], q) then [table[0]] else []) + Select(table[1..], q)
  }

  ghost predicate HasField(table: seq<Row>, field: string) { forall i | 0 <= i < |table| :: field in table[i] }

  /** The table in the order of the query: keys strictly ascending, or strictly descending. */
  ghost predicate Keyed(table: seq<Row>, field: string, ascending: bool) {
    && HasField(table, field)
    && (forall i, j | 0 <= i < j < |table| :: Beyond(table[j][field], table[i][field], ascending))
  }

  /** What the database returns for a cursor. */
  function Fetch(table: seq<Row>, cursor: Cursor, columns: set<string>, ascending: bool, size: nat): seq<Row> {
    Take(Select(table, Applied([], cursor, columns, ascending)), size + 1)
  }

  lemma {:induction false} SelectAll(table: seq<Row>, q: Query)
    requires forall i | 0 <= i < |table| :: Matches(table[i], q)
    ensures Select(table, q) == table
  {
    if table == [] {
    } else {
      SelectAll(table[1..], q);
    }
  }

  lemma {:induction false} SelectAfter(table: seq<Row>, q: Query, n: nat)
    requires n <= |table|
    requires forall i | 0 <= i < n :: !Matches(table[i], q)
    requires forall i | n <= i < |table| :: Matches(table[i], q)
    ensures Select(table, q) == table[n..]
  {
    if n == 0 {
      SelectAll(table, q);
    } else {
      SelectAfter(table[1..], q, n - 1);
    }
  }

  /** The cursor of the row before index `n` selects exactly the rows from `n` on. */
  lemma CursorIsOffset(table: seq<Row>, field: string, columns: set<string>, ascending: bool, n: nat)
    requires Keyed(table, field, ascending) && field in columns && 0 < n <= |table|
    ensures Select(table, Applied([], [(field, table[n - 1][field])], columns, ascending)) == table[n..]
  {
    var key := table[n - 1][field];
    var f := Filter(field, key, ascending);
    var one := [(field, key)];
    var q := Applied([], one, columns, ascending);
    assert one[1..] == [] && q == Applied([] + [f], [], columns, ascending) == [f];
    assert forall row :: Matches(row, q) <==> Passes(row, f);
    assert forall i | n <= i < |table| :: Matches(table[i], q);
    assert forall i | 0 <= i < n :: !Matches(table[i], q);
    SelectAfter(table, q, n);
  }

  /** Where a cursor stands: at the start, or after some row. */
  ghost predicate At(table: seq<Row>, field: string, cursor: Cursor, n: nat) {
    n <= |table| && if n == 0 then cursor == [] else field in table[n - 1] && cursor == [(field, table[n - 1][field])]
  }

  lemma FetchAt(table: seq<Row>, field: string, columns: set<string>, ascending: bool, size: nat, cursor: Cursor,
                n: nat)
    requires Keyed(table, field, ascending) && field in columns && At(table, field, cursor, n)
    ensures Fetch(table, cursor, columns, ascending, size) == Take(table[n..], size + 1)
  {
    if n == 0 {
      SelectAll(table, []);
      assert Applied([], [], columns, ascending) == [];
    } else {
      CursorIsOffset(table, field, columns, ascending, n);
    }
  }

  /** The page read at a cursor. */
  function PageOf(table: seq<Row>, field: string, columns: set<string>, ascending: bool, size: nat, cursor: Cursor)
      : Page
  {
    CreateCursorResponse(Fetch(table, cursor, columns, ascending, size), field, size)
  }

  /** Follow cursors until there is none; `n` is where the cursor stands and proves termination. */
  function Walk(table: seq<Row>, field: string, columns: set<string>, ascending: bool, size: nat, cursor: Cursor,
                ghost n: nat): seq<Page>
    requires Keyed(table, field, ascending) && field in columns && size >= 1 && At(table, field, cursor, n)
    decreases |table| - n
  {
    FetchAt(table, field, columns, ascending, size, cursor, n);
    var page := PageOf(table, field, columns, ascending, size, cursor);
    if page.nextCursor.None? then [page]
    else [page] + Walk(table, field, columns, ascending, size, page.nextCursor.value, n + size)
  }

  function Items(pages: seq<Page>): seq<Row> {
    if pages == [] then [] else pages[0].items + Items(pages[1..])
  }

  /** Counting pages from index `n`, index `j` is the last of its page. */
  predicate EndsPage(j: int, n: nat, size: nat)
    requires size >= 1
  {
    (j + 1 - n) % size == 0
  }

  /** No page but the last ends on a row whose key is zero. */
  ghost predicate CursorsSurvive(table: seq<Row>, field: string, size: nat, n: nat)
    requires size >= 1 && HasField(table, field)
  {
    forall j | n <= j < |table| - 1 && EndsPage(j, n, size) :: table[j][field] != 0
  }

  lemma EndsPageStep(j: int, n: nat, size: nat)
    requires size >= 1 && n <= j
    ensures j < n + size - 1 ==> !EndsPage(j, n, size)
    ensures j == n + size - 1 ==> EndsPage(j, n, size)
    ensures j >= n + size ==> (EndsPage(j, n, size) <==> EndsPage(j, n + size, size))
  {
    if j < n + size - 1 {
      ModSmall(j + 1 - n, size);
    } else {
      ModStep(j + 1 - n, size);
    }
  }

  lemma SurviveStep(table: seq<Row>, field: string, size: nat, n: nat)
    requires size >= 1 && n + size < |table| && HasField(table, field)
    ensures CursorsSurvive(table, field, size, n) <==>
            table[n + size - 1][field] != 0 && CursorsSurvive(table, field, size, n + size)
  {
    hide EndsPage;
    EndsPageStep(n + size - 1, n, size);
    forall j | n <= j < |table| - 1
      ensures j < n + size - 1 ==> !EndsPage(j, n, size)
      ensures j >= n + size ==> (EndsPage(j, n, size) <==> EndsPage(j, n + size, size))
    {
      EndsPageStep(j, n, size);
    }
  }

  lemma SurviveEnd(table: seq<Row>, field: string, size: nat, n: nat)
    requires size >= 1 && n + size >= |table| && HasField(table, field)
    ensures CursorsSurvive(table, field, size, n)
  {
    hide EndsPage;
    forall j | n <= j < |table| - 1 ensures !EndsPage(j, n, size) {
      EndsPageStep(j, n, size);
    }
  }

  lemma ModStep(a: int, b: nat)
    requires b >= 1
    ensures a % b == (a - b) % b
    ensures b % b == 0
  {
    var q, r := (a - b) / b, (a - b) % b;
    assert a == (q + 1) * b + r;
    QuotientUnique(a, b, q + 1, r);
    QuotientUnique(b, b, 1, 0);
  }

  lemma ModSmall(a: nat, b: nat)
    requires a < b
    ensures a % b == a
  {
  }

  /** How many pages remain from index `n`, at least one being read. */
  function PagesFrom(total: nat, n: nat, size: nat): (r: nat)
    requires n <= total && size >= 1
    ensures r >= 1
    decreases total - n
  {
    if total - n <= size then 1 else 1 + PagesFrom(total, n + size, size)
  }

  lemma {:induction false} PagesAreTotalPages(total: nat, n: nat, size: nat)
    requires n <= total && size >= 1
    ensures PagesFrom(total, n, size) == if n == total then 1 else TotalPages(total - n, size)
    decreases total - n
  {
    var rest := total - n;
    if rest > size {
      PagesAreTotalPages(total, n + size, size);
      var q, r := (rest - size + size - 1) / size, (rest - size + size - 1) % size;
      assert rest + size - 1 == (q + 1) * size + r;
      QuotientUnique(rest + size - 1, size, q + 1, r);
    } else if rest > 0 {
      QuotientUnique(rest + size - 1, size, 1, rest - 1);
    }
  }

  /** A response cut from what the cursor has left: the page, and where its cursor points. */
  lemma Response(rest: seq<Row>, field: string, size: nat)
    requires size >= 1 && HasField(rest, field)
    ensures var page := CreateCursorResponse(Take(rest, size + 1), field, size);
            && page.items == Take(rest, size) && (page.hasNext <==> size < |rest|)
            && page.nextCursor == if size < |rest| && rest[size - 1][field] != 0
                                  then Some([(field, rest[size - 1][field])]) else None
  {
    if size < |rest| {
      assert rest[..size + 1][..size] == rest[..size];
    }
  }

  /** One step of the walk. */
  lemma PageAt(table: seq<Row>, field: string, columns: set<string>, ascending: bool, size: nat, cursor: Cursor, n: nat)
    requires Keyed(table, field, ascending) && field in columns && size >= 1 && At(table, field, cursor, n)
    ensures var page, more := PageOf(table, field, columns, ascending, size, cursor), n + size < |table|;
            && page.items == Take(Drop(table, n), size) == (if more then table[n..n + size] else table[n..])
            && page.hasNext == more
            && page.nextCursor == if more && table[n + size - 1][field] != 0
                                  then Some([(field, table[n + size - 1][field])]) else None
  {
    FetchAt(table, field, columns, ascending, size, cursor, n);
    hide Fetch, CreateCursorResponse, Keyed, At;
    var rest := table[n..];
    Response(rest, field, size);
    assert Drop(table, n) == rest;
    assert Take(rest, size) == if n + size < |table| then table[n..n + size] else rest;
  }

  /** The next cursor stands one page further. */
  lemma NextAt(table: seq<Row>, field: string, columns: set<string>, ascending: bool, size: nat, cursor: Cursor, n: nat)
    requires Keyed(table, field, ascending) && field in columns && size >= 1 && At(table, field, cursor, n)
    requires PageOf(table, field, columns, ascending, size, cursor).nextCursor.Some?
    ensures n + size < |table|
    ensures At(table, field, PageOf(table, field, columns, ascending, size, cursor).nextCursor.value, n + size)
  {
    PageAt(table, field, columns, ascending, size, cursor, n);
    hide PageOf, Take, Drop;
  }

  /** The pages are the consecutive cuts of the table from index `n` on, as far as they go. */
  ghost predicate Aligned(pages: seq<Page>, table: seq<Row>, n: nat, size: nat) {
    forall k | 0 <= k < |pages| ::
      && pages[k].items == Take(Drop(table, n + k * size), size)
      && (pages[k].hasNext <==> n + k * size + size < |table|)
  }

  lemma AlignedCons(page: Page, rest: seq<Page>, table: seq<Row>, n: nat, size: nat)
    requires Aligned(rest, table, n + size, size)
    requires page.items == Take(Drop(table, n), size) && (page.hasNext <==> n + size < |table|)
    ensures Aligned([page] + rest, table, n, size)
  {
    var pages := [page] + rest;
    hide Take, Drop;
    forall k | 0 <= k < |pages|
      ensures pages[k].items == Take(Drop(table, n + k * size), size)
      ensures pages[k].hasNext <==> n + k * size + size < |table|
    {
      if k > 0 {
        assert n + size + (k - 1) * size == n + k * size;
        assert pages[k] == rest[k - 1];
      }
    }
  }

  lemma ItemsCons(page: Page, rest: seq<Page>)
    ensures Items([page] + rest) == page.items + Items(rest)
  {
    assert ([page] + rest)[1..] == rest;
  }

  /** What the walk from index `n` reads. */
  ghost predicate Reads(pages: seq<Page>, table: seq<Row>, field: string, size: nat, n: nat) {
    && size >= 1 && n <= |table| && HasField(table, field)
    && 1 <= |pages| <= PagesFrom(|table|, n, size)
    && (CursorsSurvive(table, field, size, n) <==> Items(pages) == table[n..])
    && (CursorsSurvive(table, field, size, n) <==> |pages| == PagesFrom(|table|, n, size))
    && Aligned(pages, table, n, size)
  }

  lemma ReadsOn(page: Page, rest: seq<Page>, table: seq<Row>, field: string, size: nat, n: nat)
    requires size >= 1 && n + size < |table| && HasField(table, field)
    requires Reads(rest, table, field, size, n + size) && table[n + size - 1][field] != 0
    requires page.items == Take(Drop(table, n), size) == table[n..n + size] && page.hasNext
    ensures Reads([page] + rest, table, field, size, n)
  {
    hide EndsPage, CursorsSurvive, Take, Drop, Aligned, Items;
    SurviveStep(table, field, size, n);
    ItemsCons(page, rest);
    AlignedCons(page, rest, table, n, size);
    assert table[n..] == table[n..n + size] + table[n + size..];
  }

  lemma LastPage(page: Page, table: seq<Row>, n: nat, size: nat)
    requires page.items == Take(Drop(table, n), size) && (page.hasNext <==> n + size < |table|)
    ensures Items([page]) == page.items && Aligned([page], table, n, size)
  {
    hide Take, Drop;
    assert [page][1..] == [] && 0 * size == 0;
  }

  lemma ReadsLast(page: Page, table: seq<Row>, field: string, size: nat, n: nat)
    requires size >= 1 && n <= |table| && HasField(table, field)
    requires n + size < |table| ==> table[n + size - 1][field] == 0
    requires page.hasNext <==> n + size < |table|
    requires page.items == Take(Drop(table, n), size) == (if page.hasNext then table[n..n + size] else table[n..])
    ensures Reads([page], table, field, size, n)
  {
    LastPage(page, table, n, size);
    hide EndsPage, CursorsSurvive, Take, Drop, Aligned, Items;
    if n + size < |table| {
      SurviveStep(table, field, size, n);
      assert |table[n..n + size]| < |table[n..]|;
    } else {
      SurviveEnd(table, field, size, n);
    }
  }

  /** The walk, unfolded at its last page, or at another. */
  lemma WalkEnds(table: seq<Row>, field: string, columns: set<string>, ascending: bool, size: nat, cursor: Cursor,
                 n: nat)
    requires Keyed(table, field, ascending) && field in columns && size >= 1 && At(table, field, cursor, n)
    requires PageOf(table, field, columns, ascending, size, cursor).nextCursor.None?
    ensures Reads(Walk(table, field, columns, ascending, size, cursor, n), table, field, size, n)
  {
    var page := PageOf(table, field, columns, ascending, size, cursor);
    assert Walk(table, field, columns, ascending, size, cursor, n) == [page];
    PageAt(table, field, columns, ascending, size, cursor, n);
    hide Fetch, CreateCursorResponse, Take, Drop, Reads, Walk;
    ReadsLast(page, table, field, size, n);
  }

  lemma WalkGoesOn(table: seq<Row>, field: string, columns: set<string>, ascending: bool, size: nat, cursor: Cursor,
                   n: nat)
    requires Keyed(table, field, ascending) && field in columns && size >= 1 && At(table, field, cursor, n)
    requires PageOf(table, field, columns, ascending, size, cursor).nextCursor.Some?
    ensures var next := PageOf(table, field, columns, ascending, size, cursor).nextCursor.value;
            && n + size < |table| && At(table, field, next, n + size)
            && var rest := Walk(table, field, columns, ascending, size, next, n + size);
               Reads(rest, table, field, size, n + size) ==>
               Reads(Walk(table, field, columns, ascending, size, cursor, n), table, field, size, n)
  {
    hide PageOf, Take, Drop, Reads, At;
    var page := PageOf(table, field, columns, ascending, size, cursor);
    NextAt(table, field, columns, ascending, size, cursor, n);
    var rest := Walk(table, field, columns, ascending, size, page.nextCursor.value, n + size);
    assert Walk(table, field, columns, ascending, size, cursor, n) == [page] + rest;
    hide Walk;
    PageAt(table, field, columns, ascending, size, cursor, n);
    if Reads(rest, table, field, size, n + size) {
      ReadsOn(page, rest, table, field, size, n);
    }
  }

  lemma {:induction false} WalkFrom(table: seq<Row>, field: string, columns: set<string>, ascending: bool, size: nat,
                                    cursor: Cursor, n: nat)
    requires Keyed(table, field, ascending) && field in columns && size >= 1 && At(table, field, cursor, n)
    ensures Reads(Walk(table, field, columns, ascending, size, cursor, n), table, field, size, n)
    decreases |table| - n
  {
    hide *;
    var page := PageOf(table, field, columns, ascending, size, cursor);
    if page.nextCursor.Some? {
      WalkGoesOn(table, field, columns, ascending, size, cursor, n);
      WalkFrom(table, field, columns, ascending, size, page.nextCursor.value, n + size);
    } else {
      WalkEnds(table, field, columns, ascending, size, cursor, n);
    }
  }

  lemma HasNextAgrees(total: nat, k: nat, size: nat)
    requires size >= 1
    ensures k * size + size < total <==> k + 1 < TotalPages(total, size)
  {
    var q, r := TotalPages(total, size), (total + size - 1) % size;
    assert total + size - 1 == q * size + r;
    assert (k + 1) * size == k * size + size && (k + 2) * size == k * size + size + size;
    hide TotalPages;
    if k + 1 < q {
      Scaled(k + 2, q, size);
    } else {
      Scaled(q, k + 1, size);
    }
  }

  lemma Scaled(a: nat, b: nat, f: nat)
    requires a <= b
    ensures a * f <= b * f
  {
  }

  lemma SurviveFromStart(table: seq<Row>, field: string, size: nat)
    requires size >= 1 && HasField(table, field)
    ensures CursorsSurvive(table, field, size, 0) <==>
            forall j | 0 <= j < |table| - 1 && (j + 1) % size == 0 :: table[j][field] != 0
  {
    assert forall j {:trigger EndsPage(j, 0, size)} :: EndsPage(j, 0, size) <==> (j + 1) % size == 0;
    hide EndsPage;
  }

  /**
   * Every page of the walk is the offset page of the same number. The walk reads the whole table, in exactly
   * paginate's number of pages, if and only if no page but the last ends on a row whose key is falsy.
   */
  lemma WalkIsOffsetPaging(table: seq<Row>, field: string, columns: set<string>, ascending: bool, size: nat)
    requires Keyed(table, field, ascending) && field in columns && size >= 1
    ensures var pages := Walk(table, field, columns, ascending, size, [], 0);
            && (forall k | 0 <= k < |pages| ::
                  && pages[k].items == OffsetPage(table, k + 1, size)
                  && pages[k].hasNext == Paginate(pages[k].items, k + 1, size, |table|).hasNext
                  && (Paginate(pages[k].items, k + 1, size, |table|).hasPrev <==> k > 0))
            && (Items(pages) == table <==>
                  forall j | 0 <= j < |table| - 1 && (j + 1) % size == 0 :: table[j][field] != 0)
            && (Items(pages) == table <==> |pages| == if table == [] then 1 else TotalPages(|table|, size))
  {
    var pages := Walk(table, field, columns, ascending, size, [], 0);
    WalkFrom(table, field, columns, ascending, size, [], 0);
    PagesAreTotalPages(|table|, 0, size);
    assert table[0..] == table;
    SurviveFromStart(table, field, size);
    hide Walk, CursorsSurvive, Items, PagesFrom, TotalPages, Take, Drop, EndsPage;
    forall k | 0 <= k < |pages|
      ensures pages[k].items == OffsetPage(table, k + 1, size)
      ensures pages[k].hasNext == Paginate(pages[k].items, k + 1, size, |table|).hasNext
    {
      HasNextAgrees(|table|, k, size);
      assert 0 + k * size == k * size;
    }
  }
}
