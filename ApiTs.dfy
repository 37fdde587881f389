/**
 * The two handlers of the TypeScript backend (packages/backend/src/index.ts):
 * `POST /api/upload` parses and files a table, `GET /api/data/:id` answers one
 * page of a stored table after search and sort. The query steps are pure
 * functions; the handlers are methods over the store.
 */
module ApiTs {
  import opened Wrappers
  import opened Text
  import opened Seqs
  import opened CsvSpec
  import opened CacheSpec
  import opened QueryCore
  import opened Responses
  import CsvTs
  import StoreTs

  /**
   * The query string as the handler reads it: numbers after `parseInt`
   * (`None` when missing or not a number), strings as given, `""` standing
   * for a missing one (the handler's `||` treats both alike).
   */
  datatype Query = Query(
    page: Option<int>,
    pageSize: Option<int>,
    sortBy: string,
    sortDirection: string,
    search: string,
    searchColumn: string)

  /** `parseInt(...) || fallback`: a missing value, `NaN` and `0` all give the fallback. */
  function OrElse(n: Option<int>, fallback: int): int {
    if n.None? || n.value == 0 then fallback else n.value
  }

  /** `Math.max(1, parseInt(page) || 1)`. */
  function ClampPage(n: Option<int>): (page: int)
    ensures page >= 1
    ensures n.Some? && n.value >= 1 ==> page == n.value
    ensures n.None? || n.value < 1 ==> page == 1
  {
    var p := OrElse(n, 1);
    if p < 1 then 1 else p
  }

  /** `Math.max(1, Math.min(100, parseInt(pageSize) || 20))`. */
  function ClampPageSize(n: Option<int>): (size: int)
    ensures 1 <= size <= 100
    ensures n.None? || n.value == 0 ==> size == 20
    ensures n.Some? && 1 <= n.value <= 100 ==> size == n.value
    ensures n.Some? && n.value > 100 ==> size == 100
    ensures n.Some? && n.value < 0 ==> size == 1
  {
    var s := OrElse(n, 20);
    var capped := if s > 100 then 100 else s;
    if capped < 1 then 1 else capped
  }

  /** `searchColumn || "all"`, then -1 (every cell) for "all", else the column's index (-1 if unknown). */
  function SearchColumnIndex(columns: seq<string>, searchColumn: string): (i: int)
    ensures -1 <= i < |columns|
    ensures i >= 0 <==> searchColumn != "" && searchColumn != "all" && searchColumn in columns
    ensures i >= 0 ==> columns[i] == searchColumn && forall j :: 0 <= j < i ==> columns[j] != searchColumn
  {
    var column := if searchColumn == "" then "all" else searchColumn;
    if column == "all" then -1 else IndexOf(columns, column)
  }

  /** The rows after the search step: filtered only when the trimmed search is not empty, on the untrimmed lower-cased term. */
  function Filtered(data: CsvData, q: Query): seq<seq<string>> {
    if Trim(q.search) != [] then FilterRows(data.rows, SearchColumnIndex(data.columns, q.searchColumn), Lower(q.search))
    else data.rows
  }

  /** Whether the sort step applies: `sortBy` is given and names a column. */
  predicate SortsBy(data: CsvData, q: Query) {
    q.sortBy != "" && IndexOf(data.columns, q.sortBy) != -1
  }

  /** The rows after the sort step (on a copy: the stored table is not touched). */
  function Ordered(data: CsvData, q: Query): seq<seq<string>> {
    if SortsBy(data, q) then SortRows(Filtered(data, q), IndexOf(data.columns, q.sortBy), q.sortDirection == "desc")
    else Filtered(data, q)
  }

  /** The page the handler answers for a stored table. */
  function GetData(data: CsvData, q: Query): DataResponse {
    var page := ClampPage(q.page);
    var pageSize := ClampPageSize(q.pageSize);
    var rows := Ordered(data, q);
    Paged(data.columns, rows, page, pageSize, Ceil(|rows| as real / pageSize as real))
  }

  /** A blank search keeps every row, in order. */
  lemma BlankSearchKeepsAll(data: CsvData, q: Query)
    requires Trim(q.search) == []
    ensures Filtered(data, q) == data.rows
  {
  }

  /** With a search, the kept rows are exactly the rows whose chosen cell (or any cell) contains the lower-cased term, in order. */
  lemma SearchKeepsMatches(data: CsvData, q: Query)
    requires Trim(q.search) != []
    ensures var i := SearchColumnIndex(data.columns, q.searchColumn);
      forall x :: x in Filtered(data, q) <==> x in data.rows && RowMatches(x, i, Lower(q.search))
    ensures var i := SearchColumnIndex(data.columns, q.searchColumn);
      forall x :: multiset(Filtered(data, q))[x] == if RowMatches(x, i, Lower(q.search)) then multiset(data.rows)[x] else 0
    ensures IsSubsequence(Filtered(data, q), data.rows)
  {
    FilterExact(data.rows, SearchColumnIndex(data.columns, q.searchColumn), Lower(q.search));
  }

  /** Without a usable `sortBy` the filtered order stands; with one, the rows are a stable, ordered permutation of the filtered rows. */
  lemma OrderedSpec(data: CsvData, q: Query)
    ensures !SortsBy(data, q) ==> Ordered(data, q) == Filtered(data, q)
    ensures multiset(Ordered(data, q)) == multiset(Filtered(data, q))
    ensures SortsBy(data, q) ==>
      var key := ColumnKey(IndexOf(data.columns, q.sortBy));
      && Sorted(Ordered(data, q), key, q.sortDirection == "desc")
      && forall k :: WithKey(Ordered(data, q), key, k) == WithKey(Filtered(data, q), key, k)
  {
    if SortsBy(data, q) {
      SortRowsSpec(Filtered(data, q), IndexOf(data.columns, q.sortBy), q.sortDirection == "desc");
    }
  }

  /** Every row answered is a row of the stored table. */
  lemma AnsweredRowsAreStored(data: CsvData, q: Query)
    ensures forall x :: x in GetData(data, q).rows ==> x in data.rows
  {
    OrderedSpec(data, q);
    if Trim(q.search) != [] {
      SearchKeepsMatches(data, q);
    }
    var r := GetData(data, q);
    forall x | x in r.rows ensures x in data.rows {
      var i :| 0 <= i < |r.rows| && r.rows[i] == x;
      assert x in multiset(Ordered(data, q));
    }
  }

  /** The answer is one page of the ordered rows, with the page count and `hasMore` of the filtered total. */
  lemma GetDataPaging(data: CsvData, q: Query)
    ensures var r := GetData(data, q);
      && r.page == ClampPage(q.page) >= 1 && 1 <= r.pageSize == ClampPageSize(q.pageSize) <= 100
      && r.totalRows == |Ordered(data, q)| == |Filtered(data, q)| <= |data.rows|
      && r.rows == PageRows(Ordered(data, q), r.page, r.pageSize)
      && |r.rows| <= r.pageSize
      && r.totalPages == PageCount(r.totalRows, r.pageSize)
      && (r.hasMore <==> r.page < r.totalPages)
  {
    var page, pageSize := ClampPage(q.page), ClampPageSize(q.pageSize);
    var rows := Ordered(data, q);
    OrderedSpec(data, q);
    assert |multiset(rows)| == |multiset(Filtered(data, q))|;
    CeilOfQuotient(|rows|, pageSize);
    MoreIffBeforeLastPage(|rows|, page, pageSize);
  }

  /**
   * `POST /api/upload`: parse the text; on failure answer the parser's message
   * and leave the store alone, otherwise file the table under `id` and answer
   * its summary with the first ten diagnostics.
   */
  method Upload(store: StoreTs.CsvStore, text: string, id: string, uploadedAt: int, now: int)
    returns (r: Result<UploadResponse, string>)
    requires store.Valid()
    modifies store
    ensures store.Valid()
    ensures match ParseLines(NonBlank(CsvTs.SplitLines(text)))
      case Failure(e) => r == Failure(ErrorMessage(e)) && store.data == old(store.data)
      case Success(t) =>
        && r == Success(UploadResponse(id, t.columns, t.totalRows, t.invalidRows, t.delimiter, FirstErrors(t.errors)))
        && store.data == Sweep(old(store.data)[id := StoredCsv(id, t, uploadedAt)], now, store.MaxAgeMs)
  {
    var parsed := CsvTs.ParseCsv(text);
    if parsed.Failure? {
      return Failure(ErrorMessage(parsed.error));
    }
    var t := parsed.value;
    var stored := store.Store(t, id, uploadedAt, now);
    return Success(UploadResponse(stored, t.columns, t.totalRows, t.invalidRows, t.delimiter, FirstErrors(t.errors)));
  }

  /** `GET /api/data/:id`: a 404 message for an unknown or expired id, else the page of the stored table. */
  method GetDataHandler(store: StoreTs.CsvStore, id: string, q: Query, now: int) returns (r: Result<DataResponse, string>)
    requires store.Valid()
    modifies store
    ensures store.Valid()
    ensures store.data == AfterGet(old(store.data), id, now, store.MaxAgeMs)
    ensures match Lookup(old(store.data), id, now, store.MaxAgeMs)
      case None => r == Failure(NotFoundMessage)
      case Some(d) => r == Success(GetData(d, q))
  {
    var data := store.Get(id, now);
    if data.None? {
      return Failure(NotFoundMessage);
    }
    return Success(GetData(data.value, q));
  }
}
