# CSV reader: a verified model of the ingest and query path

The system reads an uploaded CSV file, keeps the parsed table in an in-memory
store for one hour, and serves it back page by page with a search filter and a
column sort. There are two backends: TypeScript/Express and Python/FastAPI.
They do the same thing, and a React hook drives either one. This project models
in Dafny:

- **the CSV parser of each backend** (`CsvTs`, `CsvPy`). The quote-aware line
  splitter and the parse loop are imperative methods. Each is proved equal to
  one shared reference semantics, `CsvSpec`: a scan of the line into tokens,
  then cells, then trimmed cells.
- **the properties of the parsed table** (`CsvSpec`):
  - the header error cannot happen;
  - kept rows have the header's width and stay in input order;
  - every mismatched line is reported once, as `Zeile k+1`;
  - the counters add up;
  - quoted fields round-trip.
- **the table store of each backend** (`StoreTs.CsvStore`, `StoragePy.CsvStore`).
  Each is a class over a map field. Its `Store`, `Get` and sweep loop are
  proved against the pure cache rules of `CacheSpec`: strict expiry, a sweep
  that keeps exactly the live entries, and lookups that evict expired entries.
- **the query logic of both data endpoints** (`ApiTs`, `ApiPy`, on top of
  `QueryCore`), as pure functions:
  - the page and page-size clamps;
  - the case-insensitive substring search over one column or all of them;
  - a stable sort by a column, in which integer cells sort by exact integer value;
  - slicing, `totalPages` and `hasMore`.

  The upload and data handlers are methods over the store.
- **where the two backends differ, and where they agree** (`Twins`):
  - a lone carriage return is a line break only in Python;
  - TypeScript tests the trimmed search term but matches the untrimmed one;
  - `pageSize=0` gives 20 in TypeScript and 1 in Python;
  - `searchColumn=""` means "all" only in TypeScript;
  - `splitlines()` also breaks lines at `\v`, `\f`, U+001C to U+001E, U+0085,
    U+2028 and U+2029, so `a\fb` is a header and a row in Python and one
    header cell in TypeScript;
  - text cells sort by `localeCompare` in TypeScript and by code point in
    Python, and an empty cell is the number 0 only for TypeScript's `Number`;
  - a sort column mixing numbers and text makes Python's `sorted` raise
    `TypeError`, while TypeScript falls back to `localeCompare`;
  - `Number` and `float` read other numerals differently (`0x10`, `1_000`,
    `inf`);
  - Python's `strip` removes U+001C to U+001F and U+0085, JavaScript's `trim`
    removes U+FEFF (`Twins.WhitespaceSetsDiffer`);
  - FastAPI rejects a non-numeric `page` or `pageSize` with 422, where
    `parseInt` falls back to the default.

  The model shares one sort order and one ASCII trim between the backends, and
  takes the query parameters as already parsed. The agreement lemmas
  (`Twins.ParsesAgree`, `Twins.TwinsAgree`) exclude the other cases by their
  preconditions: under those preconditions the two models answer alike.
- **the view rules of the frontend hook** (`CsvView`):
  - the sort toggle;
  - the page count and the current page;
  - the page reset and page clamp effects, and the page buttons;
  - the query parameters a page fetch sends;
  - the merge of a fetched page into the preview, which keeps the upload's own
    counts.

Python's `detect_delimiter` (packages/backend/app/csv_utils.py:32-33) is the
same expression as TypeScript's `detectDelimiter`, so `CsvSpec.DetectDelimiter`
models both.

Times are plain integers in each store's clock unit: milliseconds for
TypeScript, microseconds for Python's `timedelta`. The clock reading and the
generated id are parameters of the methods that use them.

Two behaviours of the code worth noting:

- The TypeScript parser splits lines only on `\r?\n`, not on every line-ending
  style. A lone `\r` stays inside its line (`Twins.LoneCarriageReturnDiffers`).
- The TypeScript search skips filtering when the term is blank after trimming,
  but matches the untrimmed, lower-cased term (`Twins.UntrimmedSearchDiffers`).

## Model

| member | source | states |
|---|---|---|
| CsvSpec.SplitCells | packages/backend/src/csv.ts:6-36 | a line always yields at least one cell: the trimmed fields of its scan |
| CsvSpec.CellCount | packages/backend/src/csv.ts:25-34 | the number of cells is one more than the number of delimiters met outside quotes |
| CsvSpec.CellsTrimmed | packages/backend/src/csv.ts:26-34 | no cell has whitespace at either end |
| CsvSpec.QuotedFieldIsOneCell | packages/backend/src/csv.ts:14-31 | a line holding one quoted field is one cell, whatever delimiters and doubled quotes it holds: the field's text with every doubled quote read as one, trimmed |
| CsvSpec.NoDoubledQuoteNoQuoteChar | packages/backend/src/csv.ts:14-22 | without two adjacent quotes in the line, no `"` ever reaches a cell |
| CsvSpec.QuotedRoundTrip | packages/backend/src/csv.ts:6-36 | trimmed cells written as quoted, escaped fields and split again give back the same cells |
| CsvSpec.DetectDelimiter | packages/backend/src/csv.ts:41-43 | `;` exactly when the header line contains a semicolon, `,` otherwise |
| CsvSpec.BlankIffTrimsEmpty | packages/backend/src/csv.ts:49 | a line is dropped as blank exactly when trimming leaves nothing |
| CsvSpec.NonBlankExact | packages/backend/src/csv.ts:49 | the blank-line filter keeps every non-blank line, as often as it occurs, in its original order, and no blank line |
| CsvSpec.NonBlankConcat | packages/backend/src/csv.ts:49 | filtering blank lines distributes over concatenation of line lists |
| CsvSpec.NonBlankEmptyIffAllBlank | packages/backend/src/csv.ts:49-53 | nothing survives the filter exactly when every line is blank |
| CsvSpec.ParseFailsIffNoLines | packages/backend/src/csv.ts:51-60 | parsing fails exactly on an empty line list, always with the empty-file error; the header error cannot occur |
| CsvSpec.ParsedTableInvariants | packages/backend/src/csv.ts:62-86 | kept rows have the header's width; `totalRows == rows + invalidRows ==` data lines; `invalidRows ==` number of diagnostics; delimiter is `;` or `,`; kept rows are data lines' cells in input order |
| CsvSpec.LineKeptOrReported | packages/backend/src/csv.ts:66-77 | data line `k` is kept when its width matches and is otherwise reported as `Zeile k+1` with both widths |
| CsvSpec.DiagnosticsAreReports | packages/backend/src/csv.ts:70-73 | every diagnostic reports some data line whose width differs from the header's |
| CsvSpec.KeptAndReportedCount | packages/backend/src/csv.ts:66-77 | every data line read is counted exactly once, as kept or as reported |
| CsvSpec.KeptWidth | packages/backend/src/csv.ts:70-76 | every kept row has the header's width |
| CsvSpec.KeptInOrder | packages/backend/src/csv.ts:66-77 | the kept rows are a subsequence of the data lines' cells |
| CsvSpec.MatchingLinesKept | packages/backend/src/csv.ts:70-76 | a data line of the header's width is among the kept rows |
| CsvSpec.MismatchedLinesReported | packages/backend/src/csv.ts:70-73 | a data line of another width is reported under its 1-based number |
| CsvSpec.ReportsAreMismatches | packages/backend/src/csv.ts:70-73 | each diagnostic comes from a line of the wrong width |
| CsvTs.SplitCsvLine | packages/backend/src/csv.ts:6-36 | the `for` loop returns exactly the reference cells of the line |
| CsvTs.ParseCsv | packages/backend/src/csv.ts:48-87 | the parse loop returns exactly the reference parse of the non-blank `\r?\n` lines |
| CsvTs.ParseTable | packages/backend/src/csv.ts:51-87 | after the blank lines are dropped: the empty-file error for no lines, otherwise exactly the reference table |
| CsvTs.ReadRows | packages/backend/src/csv.ts:62-77 | the data-line loop keeps exactly the lines of the header's width, in order, reports every other line by its 1-based number, and counts one invalid row per report |
| CsvTs.PiecesHaveNoNewline | packages/backend/src/csv.ts:49 | no line produced by the `\r?\n` split contains a line feed |
| CsvTs.PiecesBlankIffSpace | packages/backend/src/csv.ts:49 | every piece of the split is blank exactly when the text is all whitespace |
| CsvTs.ParseFailsIffBlankText | packages/backend/src/csv.ts:49-53 | an upload is rejected as empty exactly when the text is all whitespace |
| CsvPy.SplitCsvLine | packages/backend/app/csv_utils.py:4-29 | the `while` loop, with its bounds-guarded escape test, returns exactly the reference cells of the line |
| CsvPy.ParseCsv | packages/backend/app/csv_utils.py:36-55 | the parse loop returns exactly the reference parse of the non-blank `splitlines()` lines, numbering data lines from 2 |
| CsvPy.PiecesHaveNoBreak | packages/backend/app/csv_utils.py:37 | no line produced by `splitlines()` contains a line break |
| CsvPy.PiecesBlankIffSpace | packages/backend/app/csv_utils.py:37 | every line of `splitlines()` is blank exactly when the text holds only whitespace and line breaks |
| CsvPy.ParseFailsIffBlankText | packages/backend/app/csv_utils.py:37-39 | `ValueError("CSV-Datei ist leer.")` exactly when the text holds only whitespace and line breaks |
| CacheSpec.SweepKeepsExactlyLive | packages/backend/src/store.ts:41-48 | a sweep keeps exactly the live entries, unchanged, and leaves nothing expired |
| CacheSpec.SweepIsRemoval | packages/backend/app/storage.py:44-48 | sweeping is deleting the list of expired ids |
| CacheSpec.SweepExceptStep | packages/backend/src/store.ts:43-47 | visiting one entry during the sweep deletes it exactly when it is expired |
| CacheSpec.SweepIdempotent | packages/backend/src/store.ts:41-48 | sweeping twice at the same time is sweeping once |
| CacheSpec.ExpiryMonotone | packages/backend/src/store.ts:33 | an entry expired at one time stays expired at every later time |
| CacheSpec.SweepInvisible | packages/backend/src/store.ts:28-48 | a sweep never changes what a lookup at the same or a later time answers |
| CacheSpec.StoreThenLookup | packages/backend/src/store.ts:17-39 | looking up an entry at the time it was filed finds its table |
| CacheSpec.StoreAddsOneKey | packages/backend/src/store.ts:17-26 | filing under a fresh id adds exactly that key and changes no surviving entry |
| CacheSpec.AfterGetOnlyEvicts | packages/backend/src/store.ts:28-39 | `get` deletes at most the requested id, and only when it answers nothing |
| CacheSpec.IdsMatchSwept | packages/backend/src/store.ts:41-48 | a sweep keeps every entry filed under its own id |
| StoreTs.CsvStore.constructor | packages/backend/src/store.ts:9-11 | a new store is empty, with a maximum age of one hour in milliseconds |
| StoreTs.CsvStore.Store | packages/backend/src/store.ts:17-26 | returns the id; the map becomes the old map plus the new entry, swept at the current time |
| StoreTs.CsvStore.Get | packages/backend/src/store.ts:28-39 | unknown id: null, map unchanged; expired entry (strictly older than one hour): null, exactly that id deleted; live entry: its table, map unchanged |
| StoreTs.CsvStore.Cleanup | packages/backend/src/store.ts:41-48 | the delete-while-iterating loop leaves exactly the entries live at `now` |
| StoreTs.StoreThenGet | packages/backend/src/store.ts:17-39 | `get(store(d))` with no time passing answers `d` |
| StoragePy.CsvStore.constructor | packages/backend/app/storage.py:21-23 | a new store is empty, with `_max_age` of one hour |
| StoragePy.CsvStore.Store | packages/backend/app/storage.py:29-33 | returns the id; the dict becomes the old dict plus the new entry, swept at the current time |
| StoragePy.CsvStore.Get | packages/backend/app/storage.py:35-42 | `None` for an unknown id; `None` and that id deleted for an expired entry; the table otherwise |
| StoragePy.CsvStore.Cleanup | packages/backend/app/storage.py:44-48 | collecting the expired ids and deleting them in a loop leaves exactly the live entries |
| StoragePy.StoreThenGet | packages/backend/app/storage.py:29-42 | `get(store(d))` with no time passing answers `d` |
| Responses.FirstErrors | packages/backend/src/index.ts:52 | the upload response carries the first `min(n, 10)` diagnostics, in order |
| QueryCore.FilterRows | packages/backend/src/index.ts:84-90 | the search never adds rows |
| QueryCore.FilterExact | packages/backend/src/index.ts:79-91 | a row is kept exactly when the chosen cell, or any cell, contains the term; every matching row is kept as often as it occurs, and kept rows keep their order |
| QueryCore.FilterAllMatch | packages/backend/src/index.ts:84-90 | when every row matches, the search keeps every row |
| QueryCore.KeyOf | packages/backend/src/index.ts:98-107 | a cell sorts as a number exactly when it is an integer literal |
| QueryCore.KeyLeqTotalOrder | packages/backend/src/index.ts:97-110 | the key order is total, transitive and antisymmetric |
| QueryCore.InOrderTotalOrder | packages/backend/src/index.ts:106-109 | reversing the direction still gives a total order, and ties only between equal keys |
| QueryCore.SortRowsSpec | packages/backend/src/index.ts:93-112 | sorting by a column yields a permutation of the rows, ordered by key in the direction asked, keeping rows with equal keys in their original order |
| QueryCore.NumericSortExample | packages/backend/src/index.ts:101-106 | the cells `10, 2, 1` sort ascending as `1, 2, 10` |
| QueryCore.Slice | packages/backend/src/index.ts:114-116 | `slice(start, end)` is the rows from `start` up to `end`, clipped to the list |
| QueryCore.Paged | packages/backend/src/index.ts:114-126 | the answer holds at most `pageSize` rows of the requested page, the total is the filtered count, and `hasMore` iff rows remain past the page |
| QueryCore.RowOnPage | packages/backend/src/index.ts:114-116 | row `i` is found on page `i / pageSize + 1` at position `i % pageSize` |
| QueryCore.SecondPageExample | packages/backend/src/index.ts:114-125 | page 2 of size 1 of three rows is the second row, with `hasMore` |
| QueryCore.PageCount | packages/backend/app/main.py:102 | `(n + pageSize - 1) // pageSize` is the least number of pages that hold `n` rows |
| QueryCore.MoreIffBeforeLastPage | packages/backend/app/main.py:97-103 | `hasMore` holds exactly when the page is before the last one |
| QueryCore.Ceil | packages/backend/src/index.ts:124 | `Math.ceil` gives the least integer not below its argument |
| QueryCore.CeilOfQuotient | packages/backend/src/index.ts:124 | `Math.ceil(n / pageSize)` equals the integer page count |
| ApiTs.ClampPage | packages/backend/src/index.ts:64 | the page is at least 1; a given page of 1 or more is kept; a missing, zero or negative page gives 1 |
| ApiTs.ClampPageSize | packages/backend/src/index.ts:65 | the size lies in 1..100; missing or 0 gives 20; above 100 gives 100; negative gives 1 |
| ApiTs.SearchColumnIndex | packages/backend/src/index.ts:69-82 | a single column is searched exactly when `searchColumn` is neither empty nor "all" and names a column, and then it is the first column of that name |
| ApiTs.BlankSearchKeepsAll | packages/backend/src/index.ts:80 | a blank search keeps every row in order |
| ApiTs.SearchKeepsMatches | packages/backend/src/index.ts:79-91 | with a search, the rows kept are exactly those that contain the lower-cased (untrimmed) term, each as often as it is stored, in order |
| ApiTs.OrderedSpec | packages/backend/src/index.ts:93-112 | without a known `sortBy` the order stands; with one, the rows are a stable, ordered permutation |
| ApiTs.AnsweredRowsAreStored | packages/backend/src/index.ts:77-116 | every row answered is a row of the stored table |
| ApiTs.GetDataPaging | packages/backend/src/index.ts:114-126 | the answer is the clamped requested page, of the clamped page size, of the ordered rows; `totalRows` is the filtered count; `totalPages` is its page count; `hasMore` iff the page is not the last |
| ApiTs.Upload | packages/backend/src/index.ts:42-58 | a parse failure answers its message and leaves the store alone; otherwise the table is filed and its summary answered with the first ten diagnostics |
| ApiTs.GetDataHandler | packages/backend/src/index.ts:62-127 | unknown or expired id: the not-found message; otherwise the page of the stored table; the store changes only as `get` changes it |
| ApiPy.ClampPage | packages/backend/app/main.py:95 | `max(1, page)` |
| ApiPy.ClampPageSize | packages/backend/app/main.py:96 | the size lies in 1..100 and is the requested one when that is in range |
| ApiPy.SearchColumnIndex | packages/backend/app/main.py:76-77 | a single column is searched exactly when `searchColumn` is not "all" and names a column, and then it is the first column of that name |
| ApiPy.BlankSearchKeepsAll | packages/backend/app/main.py:74-75 | a blank search keeps every row in order |
| ApiPy.SearchKeepsMatches | packages/backend/app/main.py:74-80 | with a search, the rows kept are exactly those that contain the trimmed, lower-cased term, each as often as it is stored, in order |
| ApiPy.OrderedSpec | packages/backend/app/main.py:82-92 | without a known `sortBy` the order stands; with one, the rows are a stable, ordered permutation |
| ApiPy.GetDataPaging | packages/backend/app/main.py:94-113 | the answer is the clamped requested page, of the clamped page size, of the ordered rows; `total_pages` is `(n + pageSize - 1) // pageSize`; `has_more` iff the page is not the last |
| ApiPy.Upload | packages/backend/app/main.py:34-55 | a parse failure answers the exception's message and leaves the store alone; otherwise the table is filed and its summary answered with `errors[:10]` |
| ApiPy.GetDataHandler | packages/backend/app/main.py:57-113 | unknown or expired id: the 404 message; otherwise the page of the stored table |
| Twins.LoneCarriageReturnDiffers | packages/backend/app/csv_utils.py:37 | `a\rb` is one line for `split(/\r?\n/)` and two lines for `splitlines()` |
| Twins.SplitsAgreeFrom | packages/backend/src/csv.ts:49 | on text whose only line breaks are line feeds and whose only whitespace is ASCII, both splitters give the same non-blank lines |
| Twins.ParsesAgree | packages/backend/app/csv_utils.py:36-55 | on such text both backends parse the same table, or fail alike |
| Twins.WhitespaceSetsDiffer | packages/backend/app/csv_utils.py:37 | the upload `h\n` U+001F splits into the same two lines in both backends, but its second line is blank only for `strip`; U+FEFF is whitespace only for `trim` |
| Twins.UntrimmedSearchDiffers | packages/backend/src/index.ts:80-81 | the search " a" finds nothing in TypeScript and finds the row `a` in Python |
| Twins.ZeroPageSizeDiffers | packages/backend/src/index.ts:65 | `pageSize=0` gives pages of 20 in TypeScript and of 1 in Python |
| Twins.EmptySearchColumnDiffers | packages/backend/app/main.py:76 | `searchColumn=""` searches every cell in TypeScript, and only the column named "" in Python |
| Twins.TwinsAgree | packages/backend/app/main.py:57-113 | for a trimmed search without non-ASCII whitespace, a page size other than 0, a search column other than "" and a sort column, if any, of integer literals, both backends answer the same page |
| CsvView.ToggleSort | packages/frontend/src/hooks/useCsvView.ts:177-184 | the clicked column becomes the sort column; the same column flips the direction, another starts ascending; nothing else changes |
| CsvView.ToggleSortTwice | packages/frontend/src/hooks/useCsvView.ts:177-184 | two clicks on the sorted column restore the view; two clicks on a new column sort it descending |
| CsvView.PageCount | packages/frontend/src/hooks/useCsvView.ts:159 | at least one page, and the fewest pages that hold every row |
| CsvView.PageCountIsServerCount | packages/frontend/src/hooks/useCsvView.ts:159 | the view's page count is the backends' count, raised to 1 for an empty result |
| CsvView.CurrentPage | packages/frontend/src/hooks/useCsvView.ts:160 | the page shown is the page, or the last page if the page lies beyond it |
| CsvView.ClampPage | packages/frontend/src/hooks/useCsvView.ts:163-165 | the effect pulls the page back to the last page and changes nothing else |
| CsvView.ClampPageInRange | packages/frontend/src/hooks/useCsvView.ts:159-165 | after the clamp the page lies in range and equals the page shown; clamping again changes nothing |
| CsvView.PrevPage | packages/frontend/src/App.tsx:262 | one page back, never before the first |
| CsvView.NextPage | packages/frontend/src/App.tsx:272 | one page on, never past the last |
| CsvView.PagingKeepsRange | packages/frontend/src/App.tsx:262-273 | both page buttons keep the page between 1 and the page count |
| CsvView.ResetPage | packages/frontend/src/hooks/useCsvView.ts:29-34 | a change of sort, direction, debounced search or column filter sends the view to page 1; otherwise nothing changes |
| CsvView.ToggleSortResetsPage | packages/frontend/src/hooks/useCsvView.ts:29-34 | every click on a column header returns to page 1 |
| CsvView.FetchParams | packages/frontend/src/hooks/useCsvView.ts:103-115 | page and size are always sent; sort and direction exactly when `sortBy` is set and non-empty; search and column exactly when the debounced term is not all whitespace, with the term trimmed |
| CsvView.FrontendRequestsAgree | packages/frontend/src/hooks/useCsvView.ts:103-117 | for any non-zero page size, any column filter but "", a search without non-ASCII whitespace and a sort column, if any, of integer literals, both backends answer the hook's request with the same page |
| CsvView.PageCountMatchesServer | packages/frontend/src/hooks/useCsvView.ts:136-159 | with a page size in 1..100, the view's page count is the server's `totalPages`, or 1 when that is 0 |
| CsvView.PreviewFromUpload | packages/frontend/src/hooks/useCsvView.ts:76-85 | the preview after an upload has the upload's columns, counts, delimiter, errors and the file name, and no rows yet |
| CsvView.AfterUpload | packages/frontend/src/hooks/useCsvView.ts:72-87 | an upload sets the id, the server total, the preview and page 1, and nothing else |
| CsvView.MergePreview | packages/frontend/src/hooks/useCsvView.ts:125-135 | a fetched page replaces only columns and rows; without a previous preview the fallbacks apply |
| CsvView.AfterFetch | packages/frontend/src/hooks/useCsvView.ts:125-136 | a fetched page updates the preview and takes its filtered total as the server total |
| CsvView.FetchesKeepUploadFields | packages/frontend/src/hooks/useCsvView.ts:125-136 | after any number of fetched pages, the preview keeps every field but columns and rows, and shows the last page's rows and total |
| CsvView.UploadTotalsSurviveFetches | packages/frontend/src/hooks/useCsvView.ts:72-136 | after an upload and its page fetches, the preview still shows the upload's total, invalid count, errors and file name |

## Left out

- Unicode: trimming, lower-casing and whitespace are ASCII here. `splitlines()` is modelled with its full set of line-break characters. The whitespace sets of `trim` and `strip` are spelled out (`Text.IsJsSpace`, `Text.IsPySpace`) only to state where the ASCII trim is exact.
- CsvPy.ParseCsv, CsvPy.SplitCsvLine and CsvPy.ParseFailsIffBlankText: Python's `strip` also removes U+001C to U+001F, U+0085 and the Unicode space separators, which the model keeps. So the upload U+001F, which Python rejects with "CSV-Datei ist leer.", parses here as a one-column header, and cells keep such characters at their ends.
- CsvTs.ParseCsv, CsvTs.SplitCsvLine and CsvTs.ParseFailsIffBlankText: JavaScript's `trim` also removes U+FEFF and the Unicode space separators, which the model keeps. So a header starting with a byte-order mark keeps it here, while TypeScript reads `name` for `\uFEFFname`.
- QueryCore.KeyOf: `Number(...)` and `float(...)` are floating-point parses. The model treats only optional-sign integer literals as numbers. So `1.5`, `1e3` and the empty cell (which `Number` reads as 0) sort as text. Both sources also round an integer literal to the nearest double, so literals beyond 2^53 in magnitude can tie there (`9007199254740993` and `9007199254740992` keep their input order), and literals of more than about 309 digits become infinity. The model compares exact integers and orders such literals by value.
- QueryCore.KeyLeq: between a number and a text, TypeScript falls back to `localeCompare` and Python raises `TypeError`. The model puts numbers before texts so the order is total. Texts are compared by character code rather than by locale collation.
- ApiTs.Query: the query string is taken as already parsed. `parseInt` is modelled as an optional integer, and FastAPI's validation of `page`/`pageSize` is not modelled.
- The clock and id generation (`Date.now`, `Math.random`, `datetime.utcnow`, `uuid4`) are parameters. `Store` reads the clock twice in the source. A colliding id simply overwrites its entry.
- HTTP plumbing is not modelled: routing, multer, the file-type and size checks, status codes, CORS, the health endpoint, byte decoding (UTF-8 with latin-1 fallback), and logging.
- Concurrency between requests is not modelled; each handler runs to completion.
- Short stored rows are not modelled. Python's `r[col_idx]` would raise `IndexError` on such a row. Stored rows always have the header's width (`CsvSpec.ParsedTableInvariants`), so the model reads missing cells as "".
- The frontend's `fetch` calls, error messages, loading flags, the 300 ms debounce timer and the order in which React runs effects are not modelled. The `?? []` fallbacks for fields the backends always send are not modelled either.
- The page-size selector of packages/frontend/src/App.tsx offers only 10, 20, 50 and 100. The view rules therefore require a page size of at least 1.
- The unreachable header error (`Konnte Header nicht lesen.`) is kept as a `ParseError` case. `CsvSpec.ParseFailsIffNoLines` proves it never occurs.
