/**
 * The two handlers of the Python backend (packages/backend/app/main.py):
 * `upload` parses and files a table, `get_data` answers one page of a stored
 * table after search and sort. The query steps are pure functions; the
 * handlers are methods over the store.
 */
module ApiPy {
  import opened Wrappers
  import opened Text
  import opened Seqs
  import opened CsvSpec
  import opened CacheSpec
  import opened QueryCore
  import opened Responses
  import CsvPy
  import StoragePy

  /**
   * The parameters of `get_data` once the framework has applied their
   * defaults (page 1, pageSize 20, no sortBy, "asc", "", "all").
   */
  datatype Query = Query(
    page: int,
    pageSize: int,
    sortBy: Option<string>,
    sortDirection: string,
    search: string,
    searchColumn: string)

  /** The parameter defaults of `get_data`. */
  const Defaults: Query := Query(1, 20, None, "asc", "", "all")

  /** `max(1, page)`. */
  function ClampPage(page: int): (r: int)
    ensures r >= 1
    ensures page >= 1 ==> r == page
    ensures page < 1 ==> r == 1
  {
    if page < 1 then 1 else page
  }

  /** `max(1, min(100, pageSize))`. */
  function ClampPageSize(pageSize: int): (r: int)
    ensures 1 <= r <= 100
    ensures 1 <= pageSize <= 100 ==> r == pageSize
    ensures pageSize > 100 ==> r == 100
    ensures pageSize < 1 ==> r == 1
  {
    var capped := if pageSize > 100 then 100 else pageSize;
    if capped < 1 then 1 else capped
  }

  /** `(search or "").strip().lower()`. */
  function Term(search: string): string {
    Lower(Trim(search))
  }

  /** The column searched: the index of `searchColumn` when it is not "all" and names a column, -1 (every cell) otherwise. */
  function SearchColumnIndex(columns: seq<string>, searchColumn: string): (i: int)
    ensures -1 <= i < |columns|
    ensures i >= 0 <==> searchColumn != "all" && searchColumn in columns
    ensures i >= 0 ==> columns[i] == searchColumn && forall j :: 0 <= j < i ==> columns[j] != searchColumn
  {
    if searchColumn != "all" && searchColumn in columns then IndexOf(columns, searchColumn) else -1
  }

  /** The rows after the search step: filtered only when the trimmed, lower-cased term is not empty. */
  function Filtered(data: CsvData, q: Query): seq<seq<string>> {
    var term := Term(q.search);
    if term != [] then FilterRows(data.rows, SearchColumnIndex(data.columns, q.searchColumn), term) else data.rows
  }

  /** Whether the sort step applies: `sortBy and sortBy in data.columns`. */
  predicate SortsBy(data: CsvData, q: Query) {
    q.sortBy.Some? && q.sortBy.value != "" && q.sortBy.value in data.columns
  }

  /** The rows after the sort step: `sorted(rows, key=key_fn, reverse=(sortDirection == "desc"))`. */
  function Ordered(data: CsvData, q: Query): seq<seq<string>> {
    if SortsBy(data, q) then SortRows(Filtered(data, q), IndexOf(data.columns, q.sortBy.value), q.sortDirection == "desc")
    else Filtered(data, q)
  }

  /** The page `get_data` answers for a stored table. */
  function GetData(data: CsvData, q: Query): DataResponse {
    var page := ClampPage(q.page);
    var pageSize := ClampPageSize(q.pageSize);
    var rows := Ordered(data, q);
    Paged(data.columns, rows, page, pageSize, PageCount(|rows|, pageSize))
  }

  /** An empty term keeps every row, in order. */
  lemma BlankSearchKeepsAll(data: CsvData, q: Query)
    requires Trim(q.search) == []
    ensures Filtered(data, q) == data.rows
  {
  }

  /** With a term, the kept rows are exactly the rows whose chosen cell (or any cell) contains it, in order. */
  lemma SearchKeepsMatches(data: CsvData, q: Query)
    requires Term(q.search) != []
    ensures var i := SearchColumnIndex(data.columns, q.searchColumn);
      forall x :: x in Filtered(data, q) <==> x in data.rows && RowMatches(x, i, Term(q.search))
    ensures var i := SearchColumnIndex(data.columns, q.searchColumn);
      forall x :: multiset(Filtered(data, q))[x] == if RowMatches(x, i, Term(q.search)) then multiset(data.rows)[x] else 0
    ensures IsSubsequence(Filtered(data, q), data.rows)
  {
    FilterExact(data.rows, SearchColumnIndex(data.columns, q.searchColumn), Term(q.search));
  }

  /** Without a usable `sortBy` the filtered order stands; with one, the rows are a stable, ordered permutation of the filtered rows. */
  lemma OrderedSpec(data: CsvData, q: Query)
    ensures !SortsBy(data, q) ==> Ordered(data, q) == Filtered(data, q)
    ensures multiset(Ordered(data, q)) == multiset(Filtered(data, q))
    ensures SortsBy(data, q) ==>
      var key := ColumnKey(IndexOf(data.columns, q.sortBy.value));
      && Sorted(Ordered(data, q), key, q.sortDirection == "desc")
      && forall k :: WithKey(Ordered(data, q), key, k) == WithKey(Filtered(data, q), key, k)
  {
    if SortsBy(data, q) {
      SortRowsSpec(Filtered(data, q), IndexOf(data.columns, q.sortBy.value), q.sortDirection == "desc");
    }
  }

  /** The answer is one page of the ordered rows, with `(n + pageSize - 1) // pageSize` pages and `has_more == (end < n)`. */
  lemma GetDataPaging(data: CsvData, q: Query)
    ensures var r := GetData(data, q);
      && r.page == ClampPage(q.page) >= 1 && 1 <= r.pageSize == ClampPageSize(q.pageSize) <= 100
      && r.totalRows == |Ordered(data, q)| == |Filtered(data, q)| <= |data.rows|
      && r.rows == PageRows(Ordered(data, q), r.page, r.pageSize)
      && |r.rows| <= r.pageSize
      && r.totalPages == PageCount(r.totalRows, r.pageSize)
      && (r.hasMore <==> r.page < r.totalPages)
  {
    var page, pageSize := ClampPage(q.page), ClampPageSize(q.pageSize);
    var rows := Ordered(data, q);
    OrderedSpec(data, q);
    assert |multiset(rows)| == |multiset(Filtered(data, q))|;
    MoreIffBeforeLastPage(|rows|, page, pageSize);
  }

  /**
   * `upload`: parse the text; on failure answer the exception's message and
   * leave the store alone, otherwise file the table under `id` and answer
   * its summary with `errors[:10]`.
   */
  method Upload(store: StoragePy.CsvStore, text: string, id: string, uploadedAt: int, now: int)
    returns (r: Result<UploadResponse, string>)
    requires store.Valid()
    modifies store
    ensures store.Valid()
    ensures match ParseLines(NonBlank(CsvPy.SplitLines(text)))
      case Failure(e) => r == Failure(ErrorMessage(e)) && store.entries == old(store.entries)
      case Success(t) =>
        && r == Success(UploadResponse(id, t.columns, t.totalRows, t.invalidRows, t.delimiter, FirstErrors(t.errors)))
        && store.entries == Sweep(old(store.entries)[id := StoredCsv(id, t, uploadedAt)], now, StoragePy.OneHour)
  {
    var parsed := CsvPy.ParseCsv(text);
    if parsed.Failure? {
      return Failure(ErrorMessage(parsed.error));
    }
    var t := parsed.value;
    var stored := store.Store(t, id, uploadedAt, now);
    return Success(UploadResponse(stored, t.columns, t.totalRows, t.invalidRows, t.delimiter, FirstErrors(t.errors)));
  }

  /** `get_data`: a 404 message for an unknown or expired id, else the page of the stored table. */
  method GetDataHandler(store: StoragePy.CsvStore, id: string, q: Query, now: int) returns (r: Result<DataResponse, string>)
    requires store.Valid()
    modifies store
    ensures store.Valid()
    ensures store.entries == AfterGet(old(store.entries), id, now, StoragePy.OneHour)
    ensures match Lookup(old(store.entries), id, now, StoragePy.OneHour)
      case None => r == Failure(NotFoundMessage)
      case Some(d) => r == Success(GetData(d, q))
  {
    var data := store.Get(id, now);
    if data.None? {
      return Failure(NotFoundMessage);
    }
    return Success(GetData(data.value, q));
  }
}
