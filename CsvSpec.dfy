/**
 * Reference semantics of the CSV format both backends read
 * (packages/backend/src/csv.ts and packages/backend/app/csv_utils.py).
 *
 * Splitting one line is described in two stages: `Lex` is the quote-aware
 * scan, which turns every input character into a cell boundary, a character
 * copied into the current cell, or nothing (a quote that opens or closes a
 * quoted section); `Fields` cuts the token stream at the boundaries. Each
 * backend's splitter does both in one loop and is proved equal to
 * `SplitCells`.
 */
module CsvSpec {
  import opened Wrappers
  import opened Text
  import opened Seqs

  datatype Token = Sep | Ch(c: char)

  /** The tokens the scan emits for `line`, starting in quote state `inQuotes`. */
  function Lex(line: string, delimiter: char, inQuotes: bool): seq<Token>
    decreases |line|
  {
    if line == [] then []
    else if line[0] == '"' then
      if inQuotes && |line| > 1 && line[1] == '"' then [Ch('"')] + Lex(line[2..], delimiter, inQuotes)
      else Lex(line[1..], delimiter, !inQuotes)
    else if line[0] == delimiter && !inQuotes then [Sep] + Lex(line[1..], delimiter, inQuotes)
    else [Ch(line[0])] + Lex(line[1..], delimiter, inQuotes)
  }

  function CountSeps(ts: seq<Token>): nat {
    if ts == [] then 0 else CountSeps(ts[..|ts| - 1]) + (if ts[|ts| - 1] == Sep then 1 else 0)
  }

  /** Appends one token to a non-empty list of cells: a boundary opens a new cell, a character extends the last. */
  function Step(cells: seq<string>, t: Token): (r: seq<string>)
    requires |cells| >= 1
    ensures |r| >= 1
  {
    match t
    case Sep => cells + [""]
    case Ch(c) => cells[..|cells| - 1] + [cells[|cells| - 1] + [c]]
  }

  /** The raw (untrimmed) cells of a token stream: there is always one more cell than there are boundaries. */
  function Fields(ts: seq<Token>): (r: seq<string>)
    ensures |r| == 1 + CountSeps(ts)
  {
    if ts == [] then [""] else Step(Fields(ts[..|ts| - 1]), ts[|ts| - 1])
  }

  function TrimAll(raw: seq<string>): (r: seq<string>)
    ensures |r| == |raw| && forall k :: 0 <= k < |raw| ==> r[k] == Trim(raw[k])
  {
    seq(|raw|, k requires 0 <= k < |raw| => Trim(raw[k]))
  }

  /** The cells of one line: the fields of its scan, each trimmed. */
  function SplitCells(line: string, delimiter: char): (r: seq<string>)
    ensures |r| >= 1
  {
    TrimAll(Fields(Lex(line, delimiter, false)))
  }

  /** `;` when the header line contains a semicolon, `,` otherwise. */
  function DetectDelimiter(firstLine: string): (d: char)
    ensures d == ';' || d == ','
    ensures d == ';' <==> exists k :: 0 <= k < |firstLine| && firstLine[k] == ';'
  {
    if ';' in firstLine then ';' else ','
  }

  /** One step of the lexer at position `i`: a doubled quote inside quotes is one quote character. */
  lemma LexEscapedQuote(line: string, i: nat, delimiter: char)
    requires i + 1 < |line| && line[i] == '"' && line[i + 1] == '"'
    ensures Lex(line[i..], delimiter, true) == [Ch('"')] + Lex(line[i + 2..], delimiter, true)
  {
    assert line[i..][2..] == line[i + 2..];
  }

  /** A quote that is not an escape opens or closes a quoted section. */
  lemma LexToggle(line: string, i: nat, delimiter: char, inQuotes: bool)
    requires i < |line| && line[i] == '"'
    requires !(inQuotes && i + 1 < |line| && line[i + 1] == '"')
    ensures Lex(line[i..], delimiter, inQuotes) == Lex(line[i + 1..], delimiter, !inQuotes)
  {
    assert line[i..][1..] == line[i + 1..];
  }

  /** A delimiter outside quotes separates cells. */
  lemma LexSep(line: string, i: nat, delimiter: char)
    requires i < |line| && line[i] != '"' && line[i] == delimiter
    ensures Lex(line[i..], delimiter, false) == [Sep] + Lex(line[i + 1..], delimiter, false)
  {
    assert line[i..][1..] == line[i + 1..];
  }

  /** Any other character belongs to the current cell. */
  lemma LexChar(line: string, i: nat, delimiter: char, inQuotes: bool)
    requires i < |line| && line[i] != '"' && (line[i] != delimiter || inQuotes)
    ensures Lex(line[i..], delimiter, inQuotes) == [Ch(line[i])] + Lex(line[i + 1..], delimiter, inQuotes)
  {
    assert line[i..][1..] == line[i + 1..];
  }

  /** Moving one token from the pending part to the consumed part. */
  lemma Advance(all: seq<Token>, tokens: seq<Token>, t: Token, rest: seq<Token>)
    requires tokens + ([t] + rest) == all
    ensures (tokens + [t]) + rest == all
  {
    assert tokens + ([t] + rest) == (tokens + [t]) + rest;
  }

  lemma FieldsSnoc(ts: seq<Token>, t: Token)
    ensures Fields(ts + [t]) == Step(Fields(ts), t)
  {
    assert (ts + [t])[..|ts|] == ts;
  }

  lemma TrimAllSnoc(raw: seq<string>, cell: string)
    ensures TrimAll(raw + [cell]) == TrimAll(raw) + [Trim(cell)]
  {
  }

  // ---------------------------------------------------------------------
  // Properties of the line splitter
  // ---------------------------------------------------------------------

  /** The number of cells is one more than the number of delimiters the scan meets outside quotes. */
  lemma CellCount(line: string, delimiter: char)
    ensures |SplitCells(line, delimiter)| == 1 + CountSeps(Lex(line, delimiter, false))
  {
  }

  /** No cell has whitespace at either end. */
  lemma CellsTrimmed(line: string, delimiter: char)
    ensures forall c :: c in SplitCells(line, delimiter) ==> IsTrimmed(c) && Trim(c) == c
  {
    forall c | c in SplitCells(line, delimiter) ensures IsTrimmed(c) && Trim(c) == c {
      TrimIdempotent(c);
    }
  }

  /** The tokens that copy every character of `s` into the current cell. */
  function Chars(s: string): (r: seq<Token>)
    ensures |r| == |s| && forall k :: 0 <= k < |s| ==> r[k] == Ch(s[k])
  {
    seq(|s|, k requires 0 <= k < |s| => Ch(s[k]))
  }

  /** `s` with every `"` doubled, as a quoted field is written. */
  function Escape(s: string): string {
    if s == [] then [] else (if s[0] == '"' then "\"\"" else [s[0]]) + Escape(s[1..])
  }

  function Quote(s: string): string {
    "\"" + Escape(s) + "\""
  }

  /** The cells written as quoted fields separated by the delimiter. */
  function JoinQuoted(cells: seq<string>, delimiter: char): string
    requires |cells| >= 1
  {
    if |cells| == 1 then Quote(cells[0]) else Quote(cells[0]) + [delimiter] + JoinQuoted(cells[1..], delimiter)
  }

  /**
   * Inside quotes, a doubled quote yields one `"` and every other character,
   * the delimiter included, is copied; the closing quote returns to the
   * unquoted state and is not copied.
   */
  lemma {:induction false} LexQuoted(s: string, rest: string, delimiter: char)
    requires rest == [] || rest[0] != '"'
    ensures Lex(Escape(s) + "\"" + rest, delimiter, true) == Chars(s) + Lex(rest, delimiter, false)
    decreases |s|
  {
    if s == [] {
      LexClosingQuote(rest, delimiter);
    } else {
      LexQuoted(s[1..], rest, delimiter);
      LexQuotedStep(s, rest, delimiter);
      CharsCons(s, Lex(rest, delimiter, false));
    }
  }

  lemma CharsCons(s: string, r: seq<Token>)
    requires s != []
    ensures [Ch(s[0])] + (Chars(s[1..]) + r) == Chars(s) + r
  {
    assert Chars(s) == [Ch(s[0])] + Chars(s[1..]);
  }

  /** The closing quote of a field returns to the unquoted state. */
  lemma LexClosingQuote(rest: string, delimiter: char)
    requires rest == [] || rest[0] != '"'
    ensures Lex(Escape([]) + "\"" + rest, delimiter, true) == Lex(rest, delimiter, false)
  {
    var line := Escape([]) + "\"" + rest;
    assert line == "\"" + rest;
    assert line[0..] == line && line[1..] == rest;
    LexToggle(line, 0, delimiter, true);
  }

  /** One character of a quoted field: an escaped `"` or any other character is copied. */
  lemma LexQuotedStep(s: string, rest: string, delimiter: char)
    requires s != []
    ensures Lex(Escape(s) + "\"" + rest, delimiter, true)
      == [Ch(s[0])] + Lex(Escape(s[1..]) + "\"" + rest, delimiter, true)
  {
    var tail := Escape(s[1..]) + "\"" + rest;
    var line := Escape(s) + "\"" + rest;
    assert line[0..] == line;
    if s[0] == '"' {
      assert line == "\"\"" + tail;
      assert line[2..] == tail;
      LexEscapedQuote(line, 0, delimiter);
    } else {
      assert line == [s[0]] + tail;
      assert line[1..] == tail;
      LexChar(line, 0, delimiter, true);
    }
  }

  /** The token stream of cells joined by boundaries. */
  function JoinTokens(cells: seq<string>): seq<Token>
    requires |cells| >= 1
  {
    if |cells| == 1 then Chars(cells[0]) else Chars(cells[0]) + [Sep] + JoinTokens(cells[1..])
  }

  lemma {:induction false} LexJoinQuoted(cells: seq<string>, delimiter: char)
    requires |cells| >= 1 && delimiter != '"'
    ensures Lex(JoinQuoted(cells, delimiter), delimiter, false) == JoinTokens(cells)
    decreases |cells|
  {
    var rest := if |cells| == 1 then "" else [delimiter] + JoinQuoted(cells[1..], delimiter);
    var line := JoinQuoted(cells, delimiter);
    assert line == "\"" + (Escape(cells[0]) + "\"" + rest);
    assert line[1..] == Escape(cells[0]) + "\"" + rest;
    LexQuoted(cells[0], rest, delimiter);
    if |cells| > 1 {
      assert rest[1..] == JoinQuoted(cells[1..], delimiter);
      LexJoinQuoted(cells[1..], delimiter);
    }
  }

  lemma {:induction false} FieldsOfChars(s: string)
    ensures Fields(Chars(s)) == [s]
    decreases |s|
  {
    if s != [] {
      var p := s[..|s| - 1];
      assert Chars(s)[..|s| - 1] == Chars(p);
      FieldsOfChars(p);
      assert p + [s[|s| - 1]] == s;
    }
  }

  lemma StepAppend(x: seq<string>, y: seq<string>, t: Token)
    requires |y| >= 1
    ensures Step(x + y, t) == x + Step(y, t)
  {
    if t.Ch? {
      assert (x + y)[..|x + y| - 1] == x + y[..|y| - 1];
    }
  }

  /** Cutting at a boundary: the fields of `a + [Sep] + b` are those of `a` followed by those of `b`. */
  lemma {:induction false} FieldsAtSep(a: seq<Token>, b: seq<Token>)
    ensures Fields(a + [Sep] + b) == Fields(a) + Fields(b)
    decreases |b|
  {
    if b == [] {
      assert a + [Sep] + b == a + [Sep];
      FieldsSnoc(a, Sep);
    } else {
      var b' := b[..|b| - 1];
      var t := b[|b| - 1];
      assert a + [Sep] + b == (a + [Sep] + b') + [t];
      assert b == b' + [t];
      FieldsSnoc(a + [Sep] + b', t);
      FieldsSnoc(b', t);
      FieldsAtSep(a, b');
      StepAppend(Fields(a), Fields(b'), t);
    }
  }

  lemma {:induction false} FieldsOfJoin(cells: seq<string>)
    requires |cells| >= 1
    ensures Fields(JoinTokens(cells)) == cells
    decreases |cells|
  {
    FieldsOfChars(cells[0]);
    if |cells| > 1 {
      FieldsAtSep(Chars(cells[0]), JoinTokens(cells[1..]));
      FieldsOfJoin(cells[1..]);
    }
  }

  /**
   * Writing trimmed cells as quoted fields and splitting the result gives the
   * cells back, whatever quotes and delimiters they contain.
   */
  lemma QuotedRoundTrip(cells: seq<string>, delimiter: char)
    requires |cells| >= 1 && delimiter != '"'
    requires forall k :: 0 <= k < |cells| ==> IsTrimmed(cells[k])
    ensures SplitCells(JoinQuoted(cells, delimiter), delimiter) == cells
  {
    LexJoinQuoted(cells, delimiter);
    FieldsOfJoin(cells);
    forall k | 0 <= k < |cells| ensures Trim(cells[k]) == cells[k] {
      TrimIdempotent(cells[k]);
    }
  }

  /** A quote not followed by a second one only switches the quote state; it contributes no token. */
  lemma LoneQuoteToggles(rest: string, delimiter: char, inQuotes: bool)
    requires !inQuotes || rest == [] || rest[0] != '"'
    ensures Lex("\"" + rest, delimiter, inQuotes) == Lex(rest, delimiter, !inQuotes)
  {
    assert ("\"" + rest)[1..] == rest;
  }

  /**
   * A line holding one quoted field is one cell, whatever delimiters and
   * escaped quotes the field holds: the field's text, unescaped and trimmed.
   */
  lemma QuotedFieldIsOneCell(s: string, delimiter: char)
    requires delimiter != '"'
    ensures SplitCells(Quote(s), delimiter) == [Trim(s)]
  {
    var body := Escape(s) + "\"";
    assert Quote(s) == "\"" + body;
    assert body == Escape(s) + "\"" + "";
    LoneQuoteToggles(body, delimiter, false);
    LexQuoted(s, "", delimiter);
    assert Lex("", delimiter, false) == [];
    assert Chars(s) + [] == Chars(s);
    FieldsOfChars(s);
  }

  /** Without two adjacent quotes in the line, no `"` is ever copied into a cell. */
  lemma {:induction false} NoDoubledQuoteNoQuoteChar(line: string, delimiter: char, inQuotes: bool)
    requires forall k :: 0 <= k < |line| - 1 ==> !(line[k] == '"' && line[k + 1] == '"')
    ensures Ch('"') !in Lex(line, delimiter, inQuotes)
    decreases |line|
  {
    if line != [] {
      NoDoubledQuoteNoQuoteChar(line[1..], delimiter, if line[0] == '"' then !inQuotes else inQuotes);
    }
  }

  // ---------------------------------------------------------------------
  // The table parser
  // ---------------------------------------------------------------------

  /** A parsed upload (packages/backend/src/types.ts, `CsvData` in packages/backend/app/storage.py). */
  datatype CsvData = CsvData(
    columns: seq<string>,
    rows: seq<seq<string>>,
    totalRows: int,
    invalidRows: int,
    delimiter: char,
    errors: seq<string>)

  datatype ParseError = EmptyFile | HeaderUnreadable

  /** The message each backend raises for a parse error. */
  function ErrorMessage(e: ParseError): string {
    match e
    case EmptyFile => "CSV-Datei ist leer."
    case HeaderUnreadable => "Konnte Header nicht lesen."
  }

  /** A line is blank when it holds only whitespace; see BlankIffTrimsEmpty. */
  predicate IsBlank(line: string) {
    AllSpace(line)
  }

  /** Blank in the sense of the ingest filter: trimming leaves nothing. */
  lemma BlankIffTrimsEmpty(line: string)
    ensures IsBlank(line) <==> Trim(line) == []
  {
    TrimEmptyIffAllSpace(line);
  }

  /** The lines that are not blank, in order. */
  function NonBlank(lines: seq<string>): (r: seq<string>)
    ensures forall k :: 0 <= k < |r| ==> !IsBlank(r[k])
  {
    if lines == [] then []
    else NonBlank(lines[..|lines| - 1]) + (if IsBlank(lines[|lines| - 1]) then [] else [lines[|lines| - 1]])
  }

  /** The filter keeps every non-blank line, as often as it occurs, in its original order, and nothing else. */
  lemma {:induction false} NonBlankExact(lines: seq<string>)
    ensures IsSubsequence(NonBlank(lines), lines)
    ensures forall x :: multiset(NonBlank(lines))[x] == if IsBlank(x) then 0 else multiset(lines)[x]
  {
    if lines != [] {
      var init, last := lines[..|lines| - 1], lines[|lines| - 1];
      NonBlankExact(init);
      assert lines == init + [last];
      NonBlankCountStep(init, last);
      SubsequenceExtend(NonBlank(init), init, last, !IsBlank(last));
    }
  }

  /** Filtering one more line adds one copy of it exactly when it is not blank. */
  lemma NonBlankCountStep(init: seq<string>, last: string)
    requires forall x :: multiset(NonBlank(init))[x] == if IsBlank(x) then 0 else multiset(init)[x]
    ensures forall x :: multiset(NonBlank(init + [last]))[x] == if IsBlank(x) then 0 else multiset(init + [last])[x]
  {
    var lines := init + [last];
    assert lines[..|lines| - 1] == init;
    var f := NonBlank(init);
    var added: seq<string> := if IsBlank(last) then [] else [last];
    assert NonBlank(lines) == f + added;
    assert multiset(lines) == multiset(init) + multiset{last};
    assert multiset(f + added) == multiset(f) + multiset(added);
  }

  /** Dropping blank lines from two lists one after the other is dropping them from the joined list. */
  lemma {:induction false} NonBlankConcat(a: seq<string>, b: seq<string>)
    ensures NonBlank(a + b) == NonBlank(a) + NonBlank(b)
    decreases |b|
  {
    if b == [] {
      assert a + b == a;
    } else {
      var b' := b[..|b| - 1];
      assert (a + b)[..|a + b| - 1] == a + b';
      assert (a + b)[|a + b| - 1] == b[|b| - 1];
      NonBlankConcat(a, b');
    }
  }

  predicate AllBlank(lines: seq<string>) {
    forall k :: 0 <= k < |lines| ==> IsBlank(lines[k])
  }

  /** A list of lines headed by `current` is all blank exactly when both parts are. */
  lemma AllBlankCons(current: string, rest: seq<string>)
    ensures AllBlank([current] + rest) <==> AllSpace(current) && AllBlank(rest)
  {
    var ls := [current] + rest;
    if AllSpace(current) && AllBlank(rest) {
      forall k | 0 <= k < |ls| ensures IsBlank(ls[k]) {
        if k > 0 { assert ls[k] == rest[k - 1]; }
      }
    }
    if AllBlank(ls) {
      assert IsBlank(ls[0]);
      forall k | 0 <= k < |rest| ensures IsBlank(rest[k]) {
        assert rest[k] == ls[k + 1];
      }
    }
  }

  /** Filtering out blank lines leaves nothing exactly when every line is blank. */
  lemma {:induction false} NonBlankEmptyIffAllBlank(lines: seq<string>)
    ensures NonBlank(lines) == [] <==> AllBlank(lines)
    decreases |lines|
  {
    if lines != [] {
      var init := lines[..|lines| - 1];
      NonBlankEmptyIffAllBlank(init);
      if AllBlank(lines) {
        assert AllBlank(init) by {
          forall k | 0 <= k < |init| ensures IsBlank(init[k]) {
            assert init[k] == lines[k];
          }
        }
      }
      if AllBlank(init) && IsBlank(lines[|lines| - 1]) {
        forall k | 0 <= k < |lines| ensures IsBlank(lines[k]) {
          if k < |init| {
            assert init[k] == lines[k];
          }
        }
      }
    }
  }

  /** The diagnostic for a data line whose cell count differs from the header's. */
  function Diagnostic(lineNo: nat, expected: nat, found: nat): string {
    "Zeile " + NatToString(lineNo) + ": Erwartete " + NatToString(expected) + " Spalten, gefunden " + NatToString(found)
  }

  /** The cells of each line, in order. */
  function LineCells(lines: seq<string>, delimiter: char): (r: seq<seq<string>>)
    ensures |r| == |lines|
    ensures forall k :: 0 <= k < |lines| ==> r[k] == SplitCells(lines[k], delimiter)
  {
    if lines == [] then []
    else LineCells(lines[..|lines| - 1], delimiter) + [SplitCells(lines[|lines| - 1], delimiter)]
  }

  /** The data rows among `lines[1..n]` whose width is `width`. */
  function KeptRows(lines: seq<string>, delimiter: char, width: nat, n: nat): seq<seq<string>>
    requires 1 <= n <= |lines|
    decreases n
  {
    if n == 1 then []
    else
      var cells := SplitCells(lines[n - 1], delimiter);
      KeptRows(lines, delimiter, width, n - 1) + (if |cells| == width then [cells] else [])
  }

  /** One diagnostic per data line among `lines[1..n]` whose width is not `width`; line `k` is reported as `k + 1`. */
  function Diagnostics(lines: seq<string>, delimiter: char, width: nat, n: nat): seq<string>
    requires 1 <= n <= |lines|
    decreases n
  {
    if n == 1 then []
    else
      var cells := SplitCells(lines[n - 1], delimiter);
      Diagnostics(lines, delimiter, width, n - 1) + (if |cells| != width then [Diagnostic(n, width, |cells|)] else [])
  }

  /** Reading data line `n - 1` of the header's width keeps its cells and reports nothing. */
  lemma ParseStepKept(lines: seq<string>, delimiter: char, width: nat, n: nat)
    requires 2 <= n <= |lines| && |SplitCells(lines[n - 1], delimiter)| == width
    ensures KeptRows(lines, delimiter, width, n)
      == KeptRows(lines, delimiter, width, n - 1) + [SplitCells(lines[n - 1], delimiter)]
    ensures Diagnostics(lines, delimiter, width, n) == Diagnostics(lines, delimiter, width, n - 1)
  {
  }

  /** Reading data line `n - 1` of another width keeps nothing and adds its diagnostic, numbered `n`. */
  lemma ParseStepReported(lines: seq<string>, delimiter: char, width: nat, n: nat)
    requires 2 <= n <= |lines| && |SplitCells(lines[n - 1], delimiter)| != width
    ensures KeptRows(lines, delimiter, width, n) == KeptRows(lines, delimiter, width, n - 1)
    ensures Diagnostics(lines, delimiter, width, n)
      == Diagnostics(lines, delimiter, width, n - 1) + [Diagnostic(n, width, |SplitCells(lines[n - 1], delimiter)|)]
  {
  }

  /**
   * The parse of the non-blank lines of an upload: the first line is the
   * header and fixes the delimiter; every later line is a data row, kept when
   * its width matches the header's and reported otherwise.
   */
  function ParseLines(lines: seq<string>): Result<CsvData, ParseError> {
    if lines == [] then Failure(EmptyFile)
    else
      var delimiter := DetectDelimiter(lines[0]);
      var columns := SplitCells(lines[0], delimiter);
      if |columns| == 0 then Failure(HeaderUnreadable)
      else
        var rows := KeptRows(lines, delimiter, |columns|, |lines|);
        var errors := Diagnostics(lines, delimiter, |columns|, |lines|);
        Success(CsvData(columns, rows, |rows| + |errors|, |errors|, delimiter, errors))
  }

  // ---------------------------------------------------------------------
  // Properties of the parser
  // ---------------------------------------------------------------------

  /** Parsing fails exactly when there is no line, and then with `EmptyFile`: the header error cannot happen. */
  lemma ParseFailsIffNoLines(lines: seq<string>)
    ensures ParseLines(lines).Failure? <==> lines == []
    ensures ParseLines(lines) != Failure(HeaderUnreadable)
  {
  }

  lemma {:induction false} KeptAndReportedCount(lines: seq<string>, delimiter: char, width: nat, n: nat)
    requires 1 <= n <= |lines|
    ensures |KeptRows(lines, delimiter, width, n)| + |Diagnostics(lines, delimiter, width, n)| == n - 1
    decreases n
  {
    if n > 1 {
      KeptAndReportedCount(lines, delimiter, width, n - 1);
    }
  }

  lemma {:induction false} KeptWidth(lines: seq<string>, delimiter: char, width: nat, n: nat)
    requires 1 <= n <= |lines|
    ensures forall r :: r in KeptRows(lines, delimiter, width, n) ==> |r| == width
    decreases n
  {
    if n > 1 {
      KeptWidth(lines, delimiter, width, n - 1);
    }
  }

  lemma {:induction false} KeptInOrder(lines: seq<string>, delimiter: char, width: nat, n: nat)
    requires 1 <= n <= |lines|
    ensures IsSubsequence(KeptRows(lines, delimiter, width, n), LineCells(lines[1..n], delimiter))
    decreases n
  {
    if n > 1 {
      KeptInOrder(lines, delimiter, width, n - 1);
      var cells := SplitCells(lines[n - 1], delimiter);
      var data := lines[1..n];
      assert data[..|data| - 1] == lines[1..n - 1];
      assert LineCells(data, delimiter) == LineCells(lines[1..n - 1], delimiter) + [cells];
      SubsequenceExtend(KeptRows(lines, delimiter, width, n - 1), LineCells(lines[1..n - 1], delimiter), cells, |cells| == width);
    } else {
      assert lines[1..n] == [];
    }
  }

  /** Every data line whose width matches the header's is among the kept rows. */
  lemma {:induction false} MatchingLinesKept(lines: seq<string>, delimiter: char, width: nat, n: nat, k: nat)
    requires 1 <= k < n <= |lines|
    requires |SplitCells(lines[k], delimiter)| == width
    ensures SplitCells(lines[k], delimiter) in KeptRows(lines, delimiter, width, n)
    decreases n
  {
    if k < n - 1 {
      MatchingLinesKept(lines, delimiter, width, n - 1, k);
    }
  }

  /** Every data line whose width differs from the header's is reported, under its 1-based line number. */
  lemma {:induction false} MismatchedLinesReported(lines: seq<string>, delimiter: char, width: nat, n: nat, k: nat)
    requires 1 <= k < n <= |lines|
    requires |SplitCells(lines[k], delimiter)| != width
    ensures Diagnostic(k + 1, width, |SplitCells(lines[k], delimiter)|) in Diagnostics(lines, delimiter, width, n)
    decreases n
  {
    var cells := SplitCells(lines[n - 1], delimiter);
    var tail := if |cells| != width then [Diagnostic(n, width, |cells|)] else [];
    assert Diagnostics(lines, delimiter, width, n) == Diagnostics(lines, delimiter, width, n - 1) + tail;
    if k < n - 1 {
      MismatchedLinesReported(lines, delimiter, width, n - 1, k);
    } else {
      assert tail == [Diagnostic(k + 1, width, |SplitCells(lines[k], delimiter)|)];
    }
  }

  /** Every diagnostic reports some data line whose width differs from the header's. */
  lemma {:induction false} ReportsAreMismatches(lines: seq<string>, delimiter: char, width: nat, n: nat, e: string)
    requires 1 <= n <= |lines|
    requires e in Diagnostics(lines, delimiter, width, n)
    ensures exists k :: 1 <= k < n && MismatchReport(lines, delimiter, width, k, e)
    decreases n
  {
    if e in Diagnostics(lines, delimiter, width, n - 1) {
      ReportsAreMismatches(lines, delimiter, width, n - 1, e);
    } else {
      assert MismatchReport(lines, delimiter, width, n - 1, e);
    }
  }

  /** `e` is the report for data line `k`, whose width differs from `width`. */
  predicate MismatchReport(lines: seq<string>, delimiter: char, width: nat, k: nat, e: string)
    requires k < |lines|
  {
    var cells := SplitCells(lines[k], delimiter);
    |cells| != width && e == Diagnostic(k + 1, width, |cells|)
  }

  /** The table `ParseLines` builds from non-empty input, written out. */
  lemma ParseLinesSuccess(lines: seq<string>)
    requires lines != []
    ensures var d := DetectDelimiter(lines[0]);
      var columns := SplitCells(lines[0], d);
      var rows := KeptRows(lines, d, |columns|, |lines|);
      var errors := Diagnostics(lines, d, |columns|, |lines|);
      ParseLines(lines) == Success(CsvData(columns, rows, |rows| + |errors|, |errors|, d, errors))
  {
  }

  /** The same table, for a caller that already holds the delimiter, the header, the kept rows and the diagnostics. */
  lemma ParseLinesOf(lines: seq<string>, delimiter: char, columns: seq<string>, rows: seq<seq<string>>, errors: seq<string>)
    requires lines != [] && delimiter == DetectDelimiter(lines[0]) && columns == SplitCells(lines[0], delimiter)
    requires rows == KeptRows(lines, delimiter, |columns|, |lines|)
    requires errors == Diagnostics(lines, delimiter, |columns|, |lines|)
    ensures ParseLines(lines) == Success(CsvData(columns, rows, |rows| + |errors|, |errors|, delimiter, errors))
  {
    ParseLinesWith(lines, delimiter, rows, errors);
    SameHeader(columns, SplitCells(lines[0], delimiter), rows, errors, delimiter, ParseLines(lines));
  }

  lemma ParseLinesWith(lines: seq<string>, delimiter: char, rows: seq<seq<string>>, errors: seq<string>)
    requires lines != [] && delimiter == DetectDelimiter(lines[0])
    requires rows == KeptRows(lines, delimiter, |SplitCells(lines[0], delimiter)|, |lines|)
    requires errors == Diagnostics(lines, delimiter, |SplitCells(lines[0], delimiter)|, |lines|)
    ensures ParseLines(lines) == Success(CsvData(SplitCells(lines[0], delimiter), rows, |rows| + |errors|, |errors|, delimiter, errors))
  {
  }

  /** Replaces the header of a parse result by an equal one (kept apart: the solver is slow to do it in a larger context). */
  lemma SameHeader(columns: seq<string>, header: seq<string>, rows: seq<seq<string>>, errors: seq<string>, delimiter: char, r: Result<CsvData, ParseError>)
    requires columns == header && r == Success(CsvData(header, rows, |rows| + |errors|, |errors|, delimiter, errors))
    ensures r == Success(CsvData(columns, rows, |rows| + |errors|, |errors|, delimiter, errors))
  {
  }

  /**
   * Invariants of every parsed table: each kept row has the header's width,
   * the counters add up (`totalRows == |rows| + invalidRows` and every data
   * line is counted once), there is one diagnostic per invalid row, the header
   * is not empty, the delimiter is `;` or `,`, and the kept rows are data
   * lines' cells in input order.
   */
  lemma ParsedTableInvariants(lines: seq<string>)
    requires lines != []
    ensures ParseLines(lines).Success?
    ensures var t := ParseLines(lines).value;
      && |t.columns| >= 1
      && (t.delimiter == ';' || t.delimiter == ',')
      && (forall r :: r in t.rows ==> |r| == |t.columns|)
      && t.totalRows == |t.rows| + t.invalidRows == |lines| - 1
      && t.invalidRows == |t.errors|
      && IsSubsequence(t.rows, LineCells(lines[1..], t.delimiter))
  {
    var d := DetectDelimiter(lines[0]);
    var columns := SplitCells(lines[0], d);
    var w := |columns|;
    var rows := KeptRows(lines, d, w, |lines|);
    var errors := Diagnostics(lines, d, w, |lines|);
    ParseLinesSuccess(lines);
    assert ParseLines(lines).value == CsvData(columns, rows, |rows| + |errors|, |errors|, d, errors);
    PartsInvariants(lines, d, w);
  }

  /** The kept rows and the diagnostics of all data lines, before they are put into a table. */
  lemma PartsInvariants(lines: seq<string>, d: char, w: nat)
    requires lines != []
    ensures var rows := KeptRows(lines, d, w, |lines|);
      var errors := Diagnostics(lines, d, w, |lines|);
      && (forall r :: r in rows ==> |r| == w)
      && |rows| + |errors| == |lines| - 1
      && IsSubsequence(rows, LineCells(lines[1..], d))
  {
    KeptAndReportedCount(lines, d, w, |lines|);
    KeptWidth(lines, d, w, |lines|);
    KeptInOrder(lines, d, w, |lines|);
    assert lines[1..|lines|] == lines[1..];
  }

  /**
   * Data line `k` (0-based among the non-blank lines, `k >= 1`) is kept when
   * its width matches the header's, and is otherwise reported as `Zeile k+1`.
   */
  lemma LineKeptOrReported(lines: seq<string>, k: nat)
    requires 1 <= k < |lines|
    ensures var t := ParseLines(lines).value;
      var cells := SplitCells(lines[k], t.delimiter);
      && (|cells| == |t.columns| ==> cells in t.rows)
      && (|cells| != |t.columns| ==> Diagnostic(k + 1, |t.columns|, |cells|) in t.errors)
  {
    ParseLinesSuccess(lines);
    var d := DetectDelimiter(lines[0]);
    var w := |SplitCells(lines[0], d)|;
    if |SplitCells(lines[k], d)| == w {
      MatchingLinesKept(lines, d, w, |lines|, k);
    } else {
      MismatchedLinesReported(lines, d, w, |lines|, k);
    }
  }

  /** Every diagnostic of a parsed table is the report of some data line of the wrong width. */
  lemma DiagnosticsAreReports(lines: seq<string>, e: string)
    requires lines != [] && e in ParseLines(lines).value.errors
    ensures var t := ParseLines(lines).value;
      exists k :: 1 <= k < |lines| && MismatchReport(lines, t.delimiter, |t.columns|, k, e)
  {
    ParseLinesSuccess(lines);
    var d := DetectDelimiter(lines[0]);
    ReportsAreMismatches(lines, d, |SplitCells(lines[0], d)|, |lines|, e);
  }
}
