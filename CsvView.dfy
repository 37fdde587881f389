/**
 * The view rules of the frontend hook (packages/frontend/src/hooks/useCsvView.ts):
 * the sort toggle, the page count and current page, the effects that move the
 * page, the query parameters a page fetch sends, and how a fetched page is
 * merged into the preview. React state is a value here: each rule maps the
 * hook's state to the next one.
 */
module CsvView {
  import opened Wrappers
  import opened Text
  import opened CsvSpec
  import opened Responses
  import QueryCore
  import ApiTs
  import ApiPy
  import Twins

  datatype Direction = Asc | Desc

  function DirectionName(d: Direction): string {
    if d == Asc then "asc" else "desc"
  }

  /** What the table view shows: the columns and rows of the current page and the upload's own counts. */
  datatype Preview = Preview(
    columns: seq<string>,
    rows: seq<seq<string>>,
    totalRows: int,
    invalidRows: int,
    delimiter: string,
    filename: string,
    errors: seq<string>)

  /** The hook's state (the typed search text and its debounce timer are not part of it). */
  datatype View = View(
    preview: Option<Preview>,
    debouncedSearch: string,
    columnFilter: string,
    sortBy: Option<string>,
    sortDirection: Direction,
    page: int,
    pageSize: int,
    csvId: Option<string>,
    serverTotalRows: int)

  // ---------------------------------------------------------------------
  // Sorting
  // ---------------------------------------------------------------------

  /** `toggleSort(column)`: the same column flips the direction, another column becomes the sort column, ascending. */
  function ToggleSort(v: View, column: string): (r: View)
    ensures r.sortBy == Some(column)
    ensures v.sortBy == Some(column) ==> r.sortDirection != v.sortDirection
    ensures v.sortBy != Some(column) ==> r.sortDirection == Asc
    ensures r.(sortBy := v.sortBy, sortDirection := v.sortDirection) == v
  {
    if v.sortBy == Some(column) then v.(sortDirection := if v.sortDirection == Asc then Desc else Asc)
    else v.(sortBy := Some(column), sortDirection := Asc)
  }

  /** Clicking the sorted column twice restores the view; clicking a new column twice sorts it descending. */
  lemma ToggleSortTwice(v: View, column: string)
    ensures v.sortBy == Some(column) ==> ToggleSort(ToggleSort(v, column), column) == v
    ensures v.sortBy != Some(column) ==> ToggleSort(ToggleSort(v, column), column).sortDirection == Desc
  {
  }

  // ---------------------------------------------------------------------
  // Pages
  // ---------------------------------------------------------------------

  /** `Math.ceil(n / pageSize)` is the integer page count for a non-negative `n` and below one otherwise. */
  lemma CeilOfTotal(n: int, pageSize: int)
    requires pageSize >= 1
    ensures var c := QueryCore.Ceil(n as real / pageSize as real);
      && (n >= 0 ==> c == QueryCore.PageCount(n, pageSize))
      && (n < 0 ==> c < 1)
  {
    if n >= 0 {
      QueryCore.CeilOfQuotient(n, pageSize);
    } else {
      assert n as real / pageSize as real < 0.0;
    }
  }

  /** `Math.max(1, Math.ceil(serverTotalRows / pageSize))`: at least one page, and enough pages for every row. */
  function PageCount(serverTotalRows: int, pageSize: int): (r: int)
    requires pageSize >= 1
    ensures r >= 1
    ensures serverTotalRows <= r * pageSize
    ensures serverTotalRows > 0 ==> (r - 1) * pageSize < serverTotalRows
  {
    var c := QueryCore.Ceil(serverTotalRows as real / pageSize as real);
    CeilOfTotal(serverTotalRows, pageSize);
    if c < 1 then 1 else c
  }

  /** For a non-negative total this is the backends' page count, raised to one for an empty result. */
  lemma PageCountIsServerCount(n: nat, pageSize: int)
    requires pageSize >= 1
    ensures PageCount(n, pageSize) == if n == 0 then 1 else QueryCore.PageCount(n, pageSize)
  {
    QueryCore.CeilOfQuotient(n, pageSize);
  }

  /** `Math.min(page, pageCount)`: the page shown never lies past the last page. */
  function CurrentPage(page: int, pageCount: int): (r: int)
    ensures r <= pageCount && r <= page
    ensures r == page || r == pageCount
  {
    if page < pageCount then page else pageCount
  }

  /** The page lies between the first and the last page. */
  predicate PageInRange(v: View)
    requires v.pageSize >= 1
  {
    1 <= v.page <= PageCount(v.serverTotalRows, v.pageSize)
  }

  /** The effect on `pageCount`: the page is pulled back to the last page. */
  function ClampPage(v: View): (r: View)
    requires v.pageSize >= 1
    ensures r.page == CurrentPage(v.page, PageCount(v.serverTotalRows, v.pageSize))
    ensures r.(page := v.page) == v
  {
    v.(page := CurrentPage(v.page, PageCount(v.serverTotalRows, v.pageSize)))
  }

  /** After the clamp the page is in range and is the page shown, and clamping again changes nothing. */
  lemma ClampPageInRange(v: View)
    requires v.pageSize >= 1 && v.page >= 1
    ensures PageInRange(ClampPage(v))
    ensures CurrentPage(ClampPage(v).page, PageCount(v.serverTotalRows, v.pageSize)) == ClampPage(v).page
    ensures ClampPage(ClampPage(v)) == ClampPage(v)
  {
  }

  /** The "previous" button: one page back, never before the first. */
  function PrevPage(v: View): (r: View)
    ensures r.page == if v.page > 1 then v.page - 1 else 1
    ensures r.(page := v.page) == v
  {
    v.(page := if v.page - 1 > 1 then v.page - 1 else 1)
  }

  /** The "next" button: one page on, never past the last. */
  function NextPage(v: View): (r: View)
    requires v.pageSize >= 1
    ensures r.page == CurrentPage(v.page + 1, PageCount(v.serverTotalRows, v.pageSize))
    ensures r.(page := v.page) == v
  {
    var pageCount := PageCount(v.serverTotalRows, v.pageSize);
    v.(page := if pageCount < v.page + 1 then pageCount else v.page + 1)
  }

  /** Both buttons keep the page in range. */
  lemma PagingKeepsRange(v: View)
    requires v.pageSize >= 1 && PageInRange(v)
    ensures PageInRange(PrevPage(v))
    ensures PageInRange(NextPage(v))
  {
  }

  /** The parameters whose change sends the view back to the first page. */
  predicate QueryChanged(before: View, after: View) {
    || before.sortBy != after.sortBy
    || before.sortDirection != after.sortDirection
    || before.debouncedSearch != after.debouncedSearch
    || before.columnFilter != after.columnFilter
  }

  /** The effect on sort, direction, debounced search and column filter: back to page 1 when one of them changed. */
  function ResetPage(before: View, after: View): (r: View)
    ensures QueryChanged(before, after) ==> r.page == 1
    ensures !QueryChanged(before, after) ==> r == after
    ensures r.(page := after.page) == after
  {
    if QueryChanged(before, after) && after.page != 1 then after.(page := 1) else after
  }

  /** Every click on a column header returns to the first page. */
  lemma ToggleSortResetsPage(v: View, column: string)
    ensures ResetPage(v, ToggleSort(v, column)).page == 1
  {
  }

  // ---------------------------------------------------------------------
  // Fetching a page
  // ---------------------------------------------------------------------

  datatype SortParam = SortParam(sortBy: string, sortDirection: Direction)
  datatype SearchParam = SearchParam(search: string, searchColumn: string)

  /** The query string of a page fetch: page and size always, sort and search only when set. */
  datatype Params = Params(page: int, pageSize: int, sort: Option<SortParam>, search: Option<SearchParam>)

  /** The parameters `fetchPage(id, pageNum, size)` sends. */
  function FetchParams(v: View, pageNum: int, size: int): (p: Params)
    ensures p.page == pageNum && p.pageSize == size
    ensures p.sort.Some? <==> v.sortBy.Some? && v.sortBy.value != ""
    ensures p.sort.Some? ==> p.sort.value == SortParam(v.sortBy.value, v.sortDirection)
    ensures p.search.Some? <==> !AllSpace(v.debouncedSearch)
    ensures p.search.Some? ==>
      && p.search.value.searchColumn == v.columnFilter
      && p.search.value.search != []
      && Trim(p.search.value.search) == p.search.value.search
      && Trim(v.debouncedSearch) == p.search.value.search
  {
    var effectiveSearch := Trim(v.debouncedSearch);
    TrimEmptyIffAllSpace(v.debouncedSearch);
    TrimIdempotent(v.debouncedSearch);
    Params(
      pageNum,
      size,
      if v.sortBy.Some? && v.sortBy.value != "" then Some(SortParam(v.sortBy.value, v.sortDirection)) else None,
      if effectiveSearch != [] then Some(SearchParam(effectiveSearch, v.columnFilter)) else None)
  }

  /** How the TypeScript handler reads these parameters (a missing one takes its default). */
  function TsQuery(p: Params): ApiTs.Query {
    ApiTs.Query(
      Some(p.page),
      Some(p.pageSize),
      if p.sort.Some? then p.sort.value.sortBy else "",
      if p.sort.Some? then DirectionName(p.sort.value.sortDirection) else "asc",
      if p.search.Some? then p.search.value.search else "",
      if p.search.Some? then p.search.value.searchColumn else "all")
  }

  /** How the Python handler reads these parameters. */
  function PyQuery(p: Params): ApiPy.Query {
    ApiPy.Query(
      p.page,
      p.pageSize,
      if p.sort.Some? then Some(p.sort.value.sortBy) else None,
      if p.sort.Some? then DirectionName(p.sort.value.sortDirection) else "asc",
      if p.search.Some? then p.search.value.search else "",
      if p.search.Some? then p.search.value.searchColumn else "all")
  }

  /**
   * The frontend sends the search already trimmed, so for any page size it
   * offers, any column filter but a column named "", a search without
   * non-ASCII whitespace and a sort column, if any, of integer literals, both
   * backends answer its requests with the same page.
   */
  lemma FrontendRequestsAgree(data: CsvData, v: View, pageNum: int)
    requires v.pageSize != 0
    requires v.columnFilter != ""
    requires OnlyAsciiSpace(v.debouncedSearch)
    requires v.sortBy.Some? ==> Twins.SortColumnNumeric(data, v.sortBy.value)
    ensures var p := FetchParams(v, pageNum, v.pageSize);
      ApiTs.GetData(data, TsQuery(p)) == ApiPy.GetData(data, PyQuery(p))
  {
    var p := FetchParams(v, pageNum, v.pageSize);
    assert TsQuery(p) == Twins.AsTs(PyQuery(p));
    assert Trim("") == "";
    OnlyAsciiSpaceTrim(v.debouncedSearch);
    Twins.TwinsAgree(data, PyQuery(p));
  }

  /** With a page size both backends accept, the view's page count is the server's, raised to one for an empty result. */
  lemma PageCountMatchesServer(data: CsvData, q: ApiTs.Query, pageSize: int)
    requires 1 <= pageSize <= 100 && q.pageSize == Some(pageSize)
    ensures var r := ApiTs.GetData(data, q);
      PageCount(r.totalRows, pageSize) == if r.totalPages == 0 then 1 else r.totalPages
  {
    ApiTs.GetDataPaging(data, q);
    var r := ApiTs.GetData(data, q);
    PageCountIsServerCount(r.totalRows, pageSize);
  }

  // ---------------------------------------------------------------------
  // The preview
  // ---------------------------------------------------------------------

  /** The preview set after an upload (its response has no rows; they arrive with the first page). */
  function PreviewFromUpload(payload: UploadResponse, filename: string): (p: Preview)
    ensures p.rows == [] && p.columns == payload.columns
    ensures p.totalRows == payload.totalRows && p.invalidRows == payload.invalidRows
    ensures p.delimiter == [payload.delimiter] && p.filename == filename && p.errors == payload.errors
  {
    Preview(payload.columns, [], payload.totalRows, payload.invalidRows, [payload.delimiter], filename, payload.errors)
  }

  /** The state after a successful upload: the new id, its total, the new preview, page 1. */
  function AfterUpload(v: View, payload: UploadResponse, filename: string): (r: View)
    ensures r.csvId == Some(payload.id) && r.serverTotalRows == payload.totalRows && r.page == 1
    ensures r.preview == Some(PreviewFromUpload(payload, filename))
    ensures r.(csvId := v.csvId, serverTotalRows := v.serverTotalRows, preview := v.preview, page := v.page) == v
  {
    v.(csvId := Some(payload.id), serverTotalRows := payload.totalRows, preview := Some(PreviewFromUpload(payload, filename)), page := 1)
  }

  /**
   * The preview after a fetched page: columns and rows come from the page, the
   * upload-level fields from the previous preview, or fixed fallbacks when there
   * is none.
   */
  function MergePreview(prev: Option<Preview>, payload: DataResponse, serverTotalRows: int): (p: Preview)
    ensures p.columns == payload.columns && p.rows == payload.rows
    ensures prev.Some? ==> p.(columns := prev.value.columns, rows := prev.value.rows) == prev.value
    ensures prev.None? ==> p == Preview(payload.columns, payload.rows, serverTotalRows, 0, ";", "unbekannt", [])
  {
    if prev.Some? then prev.value.(columns := payload.columns, rows := payload.rows)
    else Preview(payload.columns, payload.rows, serverTotalRows, 0, ";", "unbekannt", [])
  }

  /** The state after a fetched page: the merged preview, and the page's (filtered) total as the server total. */
  function AfterFetch(v: View, payload: DataResponse): (r: View)
    ensures r.preview == Some(MergePreview(v.preview, payload, v.serverTotalRows))
    ensures r.serverTotalRows == payload.totalRows
    ensures r.(preview := v.preview, serverTotalRows := v.serverTotalRows) == v
  {
    v.(preview := Some(MergePreview(v.preview, payload, v.serverTotalRows)), serverTotalRows := payload.totalRows)
  }

  /** The state after a run of fetched pages, in order. */
  function AfterFetches(v: View, payloads: seq<DataResponse>): View
    decreases |payloads|
  {
    if payloads == [] then v else AfterFetches(AfterFetch(v, payloads[0]), payloads[1..])
  }

  /**
   * After an upload and any number of fetched pages, the preview still holds
   * the upload's total, invalid count, delimiter, file name and diagnostics,
   * while the rows and the server total are those of the last page fetched.
   */
  lemma {:induction false} FetchesKeepUploadFields(v: View, payloads: seq<DataResponse>)
    requires v.preview.Some?
    ensures var r := AfterFetches(v, payloads);
      && r.preview.Some?
      && r.preview.value.(columns := v.preview.value.columns, rows := v.preview.value.rows) == v.preview.value
      && (payloads != [] ==> r.preview.value.rows == payloads[|payloads| - 1].rows)
      && (payloads != [] ==> r.serverTotalRows == payloads[|payloads| - 1].totalRows)
    decreases |payloads|
  {
    if payloads != [] {
      var next := AfterFetch(v, payloads[0]);
      FetchesKeepUploadFields(next, payloads[1..]);
      if |payloads| > 1 {
        assert payloads[1..][|payloads[1..]| - 1] == payloads[|payloads| - 1];
      }
    }
  }

  /** The totals shown after an upload and its page fetches are the upload's, not a filtered count. */
  lemma UploadTotalsSurviveFetches(v: View, payload: UploadResponse, filename: string, payloads: seq<DataResponse>)
    ensures var r := AfterFetches(AfterUpload(v, payload, filename), payloads);
      && r.preview.Some?
      && r.preview.value.totalRows == payload.totalRows
      && r.preview.value.invalidRows == payload.invalidRows
      && r.preview.value.errors == payload.errors
      && r.preview.value.filename == filename
  {
    FetchesKeepUploadFields(AfterUpload(v, payload, filename), payloads);
  }
}
