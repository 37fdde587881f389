/**
 * The TypeScript and Python backends side by side: where their answers to the
 * same request differ, shown on concrete inputs, and the conditions under
 * which they agree.
 */
module Twins {
  import opened Wrappers
  import opened Text
  import opened CsvSpec
  import opened QueryCore
  import opened Responses
  import CsvTs
  import CsvPy
  import ApiTs
  import ApiPy

  /** The TypeScript request carrying the same parameters as a Python one (a missing `sortBy` is the empty string). */
  function AsTs(q: ApiPy.Query): ApiTs.Query {
    ApiTs.Query(Some(q.page), Some(q.pageSize), if q.sortBy.Some? then q.sortBy.value else "", q.sortDirection, q.search, q.searchColumn)
  }

  /**
   * A lone carriage return: `split(/\r?\n/)` keeps it inside the line,
   * `splitlines()` breaks the line there.
   */
  lemma LoneCarriageReturnDiffers()
    ensures CsvTs.SplitLines("a\rb") == ["a\rb"]
    ensures CsvPy.SplitLines("a\rb") == ["a", "b"]
  {
    var t := "a\rb";
    assert t[0] == 'a' && t[1..] == "\rb" && t[1..][0] == '\r' && t[1..][1..] == "b";
    assert "b"[1..] == [];
    assert "" + ['a'] == "a" && "a" + ['\r'] == "a\r" && "a\r" + ['b'] == "a\rb" && "" + ['b'] == "b";
    assert CsvTs.SplitLinesFrom("b", "a\r") == CsvTs.SplitLinesFrom([], "a\rb");
    assert CsvTs.SplitLinesFrom("\rb", "a") == CsvTs.SplitLinesFrom("b", "a\r");
    assert CsvPy.SplitLinesFrom("b", "") == CsvPy.SplitLinesFrom([], "b");
    assert CsvPy.SplitLinesFrom("\rb", "a") == ["a"] + CsvPy.SplitLinesFrom("b", "");
  }

  /** Text whose only line breaks, in the sense of `splitlines()`, are line feeds. */
  predicate OnlyLineFeeds(text: string) {
    forall k :: 0 <= k < |text| && CsvPy.IsLineBreak(text[k]) ==> text[k] == '\n'
  }

  /**
   * On such text, holding no whitespace on which `trim` and `strip` disagree,
   * both splitters give the same lines once the blank ones are dropped.
   */
  lemma {:induction false} SplitsAgreeFrom(text: string, current: string)
    requires OnlyLineFeeds(text) && OnlyAsciiSpace(text)
    ensures NonBlank(CsvTs.SplitLinesFrom(text, current)) == NonBlank(CsvPy.SplitLinesFrom(text, current))
    decreases |text|
  {
    if text == [] {
      if current == [] {
        assert NonBlank([current]) == NonBlank([]);
      }
    } else {
      assert OnlyLineFeeds(text[1..]) && OnlyAsciiSpace(text[1..]) by {
        forall k | 0 <= k < |text[1..]| ensures text[1..][k] == text[k + 1] {
        }
      }
      assert CsvPy.IsLineBreak(text[0]) ==> text[0] == '\n';
      if text[0] == '\n' {
        SplitsAgreeFrom(text[1..], "");
        NonBlankConcat([current], CsvTs.SplitLinesFrom(text[1..], ""));
        NonBlankConcat([current], CsvPy.SplitLinesFrom(text[1..], ""));
      } else {
        SplitsAgreeFrom(text[1..], current + [text[0]]);
      }
    }
  }

  /**
   * On text whose only line breaks are line feeds and whose only whitespace is
   * ASCII, both backends parse the same table or fail alike.
   */
  lemma ParsesAgree(text: string)
    requires OnlyLineFeeds(text) && OnlyAsciiSpace(text)
    ensures ParseLines(NonBlank(CsvTs.SplitLines(text))) == ParseLines(NonBlank(CsvPy.SplitLines(text)))
  {
    SplitsAgreeFrom(text, "");
  }

  /**
   * The upload `h\n` U+001F: both splitters give the lines `h` and U+001F, and
   * the second is blank for Python's `strip` but not for JavaScript's `trim`,
   * so only the TypeScript backend reads it as a data line. A byte-order mark
   * goes the other way: `trim` removes it and `strip` keeps it.
   */
  lemma WhitespaceSetsDiffer()
    ensures OnlyLineFeeds("h\n\U{1F}") && !OnlyAsciiSpace("h\n\U{1F}")
    ensures CsvTs.SplitLines("h\n\U{1F}") == ["h", "\U{1F}"] && CsvPy.SplitLines("h\n\U{1F}") == ["h", "\U{1F}"]
    ensures IsPySpace('\U{1F}') && !IsJsSpace('\U{1F}')
    ensures IsJsSpace('\U{FEFF}') && !IsPySpace('\U{FEFF}')
  {
    var t := "h\n\U{1F}";
    assert t[0] == 'h' && t[1..] == "\n\U{1F}" && t[1..][0] == '\n' && t[1..][1..] == "\U{1F}";
    assert !CsvPy.IsLineBreak(t[2]) && !IsSpace(t[2]);
    assert "\U{1F}"[1..] == [];
    assert "" + ['h'] == "h" && "" + ['\U{1F}'] == "\U{1F}";
    assert CsvTs.SplitLinesFrom("\U{1F}", "") == CsvTs.SplitLinesFrom([], "\U{1F}");
    assert CsvPy.SplitLinesFrom("\U{1F}", "") == CsvPy.SplitLinesFrom([], "\U{1F}");
    assert CsvTs.SplitLinesFrom(t, "") == CsvTs.SplitLinesFrom(t[1..], "h");
    assert CsvPy.SplitLinesFrom(t, "") == CsvPy.SplitLinesFrom(t[1..], "h");
  }

  /**
   * The sort column holds only integer literals, which `Number` and `float`
   * read alike and which both handlers compare numerically; on other cells
   * `localeCompare` and Python's `<` order differently, and `""` is 0 for
   * `Number` but not a number for `float`.
   */
  predicate SortColumnNumeric(data: CsvData, column: string) {
    column in data.columns ==> forall row :: row in data.rows ==> IsIntLiteral(CellOr(row, IndexOf(data.columns, column)))
  }

  /** A one-column table with the single row `a`. */
  const Letters: CsvData := CsvData(["name"], [["a"]], 1, 0, ',', [])

  /** The string facts the example below rests on. */
  lemma LettersFacts()
    ensures Trim(" a") == "a" && Lower(" a") == " a" && Lower("a") == "a"
    ensures !CellMatches("a", " a") && CellMatches("a", "a")
  {
    assert " a"[1..] == "a";
    assert LeadingSpace(" a") == 1;
    assert TrailingSpace("a") == 0;
    assert Lower("a") == "a";
    assert !Contains("a", " a");
    assert IsPrefix("a", "a");
  }

  /** The search " a" as the TypeScript handler applies it: the untrimmed term is not in the cell `a`. */
  lemma LettersTsSearch(q: ApiTs.Query)
    requires q.search == " a" && q.searchColumn == "all"
    ensures ApiTs.Filtered(Letters, q) == []
  {
    LettersFacts();
    assert !AnyCellMatches(["a"], " a");
  }

  /** The search " a" as the Python handler applies it: the trimmed term `a` is in the cell `a`. */
  lemma LettersPySearch(q: ApiPy.Query)
    requires q.search == " a" && q.searchColumn == "all"
    ensures ApiPy.Filtered(Letters, q) == [["a"]]
  {
    LettersFacts();
    assert ["a"][0] == "a";
    assert AnyCellMatches(["a"], "a");
  }

  /**
   * A search with surrounding blanks: the TypeScript handler tests the trimmed
   * term but matches the untrimmed one and finds nothing; the Python handler
   * trims before matching and finds the row.
   */
  lemma UntrimmedSearchDiffers()
    ensures var q := ApiPy.Defaults.(search := " a");
      && ApiTs.GetData(Letters, AsTs(q)).totalRows == 0
      && ApiPy.GetData(Letters, q).totalRows == 1
  {
    var q := ApiPy.Defaults.(search := " a");
    LettersTsSearch(AsTs(q));
    LettersPySearch(q);
    ApiTs.GetDataPaging(Letters, AsTs(q));
    ApiPy.GetDataPaging(Letters, q);
  }

  /** `pageSize=0`: `|| 20` makes it 20 in TypeScript, `max(1, ...)` makes it 1 in Python. */
  lemma ZeroPageSizeDiffers(data: CsvData)
    ensures var q := ApiPy.Defaults.(pageSize := 0);
      && ApiTs.GetData(data, AsTs(q)).pageSize == 20
      && ApiPy.GetData(data, q).pageSize == 1
  {
    var q := ApiPy.Defaults.(pageSize := 0);
    ApiTs.GetDataPaging(data, AsTs(q));
    ApiPy.GetDataPaging(data, q);
  }

  /** A table whose first column has an empty header. */
  const Unnamed: CsvData := CsvData(["", "b"], [["x", "y"]], 1, 0, ',', [])

  /** The string facts the example below rests on. */
  lemma UnnamedFacts()
    ensures Trim("y") == "y" && Lower("y") == "y"
    ensures CellMatches("y", "y") && !CellMatches("x", "y")
  {
    assert LeadingSpace("y") == 0;
    assert TrailingSpace("y") == 0;
    assert Lower("x") == "x";
    assert IsPrefix("y", "y");
    assert !Contains("x", "y");
  }

  /** `searchColumn=""` in TypeScript: every cell is searched, and `y` is found. */
  lemma UnnamedTsSearch(q: ApiTs.Query)
    requires q.search == "y" && q.searchColumn == ""
    ensures ApiTs.Filtered(Unnamed, q) == [["x", "y"]]
  {
    UnnamedFacts();
    assert ApiTs.SearchColumnIndex(Unnamed.columns, q.searchColumn) == -1;
    assert ApiTs.Filtered(Unnamed, q) == FilterRows(Unnamed.rows, -1, "y");
    UnnamedRowFound();
  }

  /** Searching every cell of the row `x,y` for `y` keeps it. */
  lemma UnnamedRowFound()
    ensures FilterRows([["x", "y"]], -1, "y") == [["x", "y"]]
  {
    UnnamedFacts();
    var row: seq<string> := ["x", "y"];
    var rows: seq<seq<string>> := [row];
    assert row[1] == "y";
    assert AnyCellMatches(row, "y");
    assert rows[..0] == [];
  }

  /** `searchColumn=""` in Python: only the column named "" is searched, and `y` is not in it. */
  lemma UnnamedPySearch(q: ApiPy.Query)
    requires q.search == "y" && q.searchColumn == ""
    ensures ApiPy.Filtered(Unnamed, q) == []
  {
    UnnamedFacts();
    assert ApiPy.SearchColumnIndex(Unnamed.columns, "") == 0;
    assert CellOr(["x", "y"], 0) == "x";
  }

  /**
   * `searchColumn=""`: TypeScript reads it as "all" and searches every cell;
   * Python looks for a column named "" and, when there is one, searches only it.
   */
  lemma EmptySearchColumnDiffers()
    ensures var q := ApiPy.Defaults.(search := "y", searchColumn := "");
      && ApiTs.GetData(Unnamed, AsTs(q)).totalRows == 1
      && ApiPy.GetData(Unnamed, q).totalRows == 0
  {
    var q := ApiPy.Defaults.(search := "y", searchColumn := "");
    UnnamedTsSearch(AsTs(q));
    UnnamedPySearch(q);
    ApiTs.GetDataPaging(Unnamed, AsTs(q));
    ApiPy.GetDataPaging(Unnamed, q);
  }

  /**
   * For a search term without surrounding blanks and without non-ASCII
   * whitespace, a page size other than 0, a search column other than "" and a
   * sort column, if any, of integer literals, both backends answer the same page.
   */
  lemma TwinsAgree(data: CsvData, q: ApiPy.Query)
    requires Trim(q.search) == q.search && OnlyAsciiSpace(q.search)
    requires q.sortBy.Some? ==> SortColumnNumeric(data, q.sortBy.value)
    requires q.pageSize != 0
    requires q.searchColumn != ""
    ensures ApiTs.GetData(data, AsTs(q)) == ApiPy.GetData(data, q)
  {
    var t := AsTs(q);
    assert ApiTs.ClampPage(t.page) == ApiPy.ClampPage(q.page);
    assert ApiTs.ClampPageSize(t.pageSize) == ApiPy.ClampPageSize(q.pageSize);
    assert |Lower(q.search)| == |q.search|;
    assert ApiTs.Filtered(data, t) == ApiPy.Filtered(data, q);
    assert ApiTs.SortsBy(data, t) == ApiPy.SortsBy(data, q);
    assert ApiTs.Ordered(data, t) == ApiPy.Ordered(data, q);
    var rows := ApiPy.Ordered(data, q);
    CeilOfQuotient(|rows|, ApiPy.ClampPageSize(q.pageSize));
  }
}
