/**
 * The Python backend's CSV reader (packages/backend/app/csv_utils.py):
 * `split_csv_line` and `parse_csv` are loops, proved to compute the same
 * reference semantics as the TypeScript reader (module CsvSpec); the one
 * difference is how the upload is cut into lines (`str.splitlines`).
 * `detect_delimiter` is the same expression as `detectDelimiter` and is
 * modelled once, as CsvSpec.DetectDelimiter.
 */
module CsvPy {
  import opened Wrappers
  import opened Text
  import opened CsvSpec

  /** `i + 1 < len(line) and line[i + 1] == '"'`: the next character exists and is a quote. */
  predicate QuoteFollows(line: string, i: nat) {
    i + 1 < |line| && line[i + 1] == '"'
  }

  /** Splits one line into stripped cells, honouring quoted fields and `""` escapes. */
  method SplitCsvLine(line: string, delimiter: char) returns (cells: seq<string>)
    ensures cells == SplitCells(line, delimiter)
  {
    cells := [];
    var current := "";
    var inQuotes := false;
    ghost var raw: seq<string> := [];
    ghost var tokens: seq<Token> := [];
    var i := 0;
    while i < |line|
      invariant 0 <= i <= |line|
      invariant tokens + Lex(line[i..], delimiter, inQuotes) == Lex(line, delimiter, false)
      invariant Fields(tokens) == raw + [current]
      invariant cells == TrimAll(raw)
    {
      var ch := line[i];
      if ch == '"' {
        var isEscapedQuote := inQuotes && QuoteFollows(line, i);
        if isEscapedQuote {
          LexEscapedQuote(line, i, delimiter);
          Advance(Lex(line, delimiter, false), tokens, Ch('"'), Lex(line[i + 2..], delimiter, inQuotes));
          current := current + ['"'];
          FieldsSnoc(tokens, Ch('"'));
          tokens := tokens + [Ch('"')];
          i := i + 2;
          continue;
        }
        LexToggle(line, i, delimiter, inQuotes);
        inQuotes := !inQuotes;
        i := i + 1;
        continue;
      }
      if ch == delimiter && !inQuotes {
        LexSep(line, i, delimiter);
        Advance(Lex(line, delimiter, false), tokens, Sep, Lex(line[i + 1..], delimiter, inQuotes));
        cells := cells + [Trim(current)];
        TrimAllSnoc(raw, current);
        FieldsSnoc(tokens, Sep);
        tokens := tokens + [Sep];
        raw := raw + [current];
        current := "";
        i := i + 1;
        continue;
      }
      LexChar(line, i, delimiter, inQuotes);
      Advance(Lex(line, delimiter, false), tokens, Ch(ch), Lex(line[i + 1..], delimiter, inQuotes));
      current := current + [ch];
      FieldsSnoc(tokens, Ch(ch));
      tokens := tokens + [Ch(ch)];
      i := i + 1;
    }
    assert tokens == Lex(line, delimiter, false);
    TrimAllSnoc(raw, current);
    cells := cells + [Trim(current)];
  }

  /** The line boundaries of Python's `str.splitlines` (`\r\n` counts as one). */
  predicate IsLineBreak(c: char) {
    || c == '\n' || c == '\r' || c == '\U{0B}' || c == '\U{0C}'
    || c == '\U{1C}' || c == '\U{1D}' || c == '\U{1E}'
    || c == '\U{85}' || c == '\U{2028}' || c == '\U{2029}'
  }

  /**
   * The pieces of `text.splitlines()`, `current` being the piece read so far:
   * a final piece is produced only when it is not empty.
   */
  function SplitLinesFrom(text: string, current: string): seq<string>
    decreases |text|
  {
    if text == [] then (if current == [] then [] else [current])
    else if text[0] == '\r' && |text| > 1 && text[1] == '\n' then [current] + SplitLinesFrom(text[2..], "")
    else if IsLineBreak(text[0]) then [current] + SplitLinesFrom(text[1..], "")
    else SplitLinesFrom(text[1..], current + [text[0]])
  }

  function SplitLines(text: string): seq<string> {
    SplitLinesFrom(text, "")
  }

  predicate NoBreak(s: string) {
    forall k :: 0 <= k < |s| ==> !IsLineBreak(s[k])
  }

  /** No piece of `splitlines` holds a line boundary. */
  lemma {:induction false} PiecesHaveNoBreak(text: string, current: string)
    requires NoBreak(current)
    ensures forall p :: p in SplitLinesFrom(text, current) ==> NoBreak(p)
    decreases |text|
  {
    if text == [] {
    } else if text[0] == '\r' && |text| > 1 && text[1] == '\n' {
      PiecesHaveNoBreak(text[2..], "");
    } else if IsLineBreak(text[0]) {
      PiecesHaveNoBreak(text[1..], "");
    } else {
      var next := current + [text[0]];
      assert NoBreak(next) by {
        forall k | 0 <= k < |next| ensures !IsLineBreak(next[k]) {
          if k < |current| { assert next[k] == current[k]; }
        }
      }
      PiecesHaveNoBreak(text[1..], next);
    }
  }

  /** Parses an upload: blank lines dropped, the first line the header, every other line a row or a diagnostic. */
  method ParseCsv(text: string) returns (r: Result<CsvData, ParseError>)
    ensures r == ParseLines(NonBlank(SplitLines(text)))
  {
    var lines := NonBlank(SplitLines(text));
    if |lines| == 0 {
      assert lines == [];
      return Failure(EmptyFile);
    }
    var delimiter := DetectDelimiter(lines[0]);
    var columns := SplitCsvLine(lines[0], delimiter);
    if |columns| == 0 {
      return Failure(HeaderUnreadable);
    }
    var rows: seq<seq<string>> := [];
    var errors: seq<string> := [];
    var invalidRows := 0;
    // enumerate(lines[1:], start=2): the k-th row line is reported as line k + 2
    var k := 0;
    while k < |lines| - 1
      invariant 0 <= k <= |lines| - 1
      invariant rows == KeptRows(lines, delimiter, |columns|, k + 1)
      invariant errors == Diagnostics(lines, delimiter, |columns|, k + 1)
      invariant invalidRows == |errors|
    {
      var idx := k + 2;
      var line := lines[k + 1];
      var cells := SplitCsvLine(line, delimiter);
      if |cells| != |columns| {
        ParseStepReported(lines, delimiter, |columns|, k + 2);
        invalidRows := invalidRows + 1;
        errors := errors + [Diagnostic(idx, |columns|, |cells|)];
        k := k + 1;
        continue;
      }
      ParseStepKept(lines, delimiter, |columns|, k + 2);
      rows := rows + [cells];
      k := k + 1;
    }
    var totalRows := |rows| + invalidRows;
    ParseLinesOf(lines, delimiter, columns, rows, errors);
    return Success(CsvData(columns, rows, totalRows, invalidRows, delimiter, errors));
  }

  /** Every character is whitespace or a line boundary. */
  predicate AllSpaceOrBreak(s: string) {
    forall k :: 0 <= k < |s| ==> IsSpace(s[k]) || IsLineBreak(s[k])
  }

  lemma AllSpaceOrBreakDrop(text: string, n: nat)
    requires 1 <= n <= |text|
    requires forall k :: 0 <= k < n ==> IsLineBreak(text[k])
    ensures AllSpaceOrBreak(text) <==> AllSpaceOrBreak(text[n..])
  {
    if AllSpaceOrBreak(text[n..]) {
      forall k | 0 <= k < |text| ensures IsSpace(text[k]) || IsLineBreak(text[k]) {
        if k >= n { assert text[k] == text[n..][k - n]; }
      }
    }
  }

  /** The pieces of `current + text` are all blank exactly when it is whitespace and line boundaries only. */
  lemma {:induction false} PiecesBlankIffSpace(text: string, current: string)
    requires NoBreak(current)
    ensures AllBlank(SplitLinesFrom(text, current)) <==> AllSpace(current) && AllSpaceOrBreak(text)
    decreases |text|
  {
    if text == [] {
      if current != [] {
        AllBlankCons(current, []);
        assert SplitLinesFrom(text, current) == [current] + [];
      }
      assert current == [] ==> AllSpace(current);
    } else if text[0] == '\r' && |text| > 1 && text[1] == '\n' {
      PiecesBlankIffSpace(text[2..], "");
      AllBlankCons(current, SplitLinesFrom(text[2..], ""));
      AllSpaceOrBreakDrop(text, 2);
    } else if IsLineBreak(text[0]) {
      PiecesBlankIffSpace(text[1..], "");
      AllBlankCons(current, SplitLinesFrom(text[1..], ""));
      AllSpaceOrBreakDrop(text, 1);
    } else {
      var next := current + [text[0]];
      assert NoBreak(next) by {
        forall k | 0 <= k < |next| ensures !IsLineBreak(next[k]) {
          if k < |current| { assert next[k] == current[k]; }
        }
      }
      PiecesBlankIffSpace(text[1..], next);
      assert SplitLinesFrom(text, current) == SplitLinesFrom(text[1..], next);
      AllSpaceConcat(current, [text[0]]);
      assert AllSpace([text[0]]) <==> IsSpace(text[0]) by {
        assert [text[0]][0] == text[0];
      }
      assert AllSpaceOrBreak(text) <==> IsSpace(text[0]) && AllSpaceOrBreak(text[1..]) by {
        if IsSpace(text[0]) && AllSpaceOrBreak(text[1..]) {
          forall k | 0 <= k < |text| ensures IsSpace(text[k]) || IsLineBreak(text[k]) {
            if k > 0 { assert text[k] == text[1..][k - 1]; }
          }
        }
      }
    }
  }

  /** `parse_csv` raises "CSV-Datei ist leer." exactly when the upload is whitespace and line boundaries only. */
  lemma ParseFailsIffBlankText(text: string)
    ensures ParseLines(NonBlank(SplitLines(text))).Failure? <==> AllSpaceOrBreak(text)
    ensures ParseLines(NonBlank(SplitLines(text))).Failure? ==> ParseLines(NonBlank(SplitLines(text))).error == EmptyFile
  {
    PiecesBlankIffSpace(text, "");
    NonBlankEmptyIffAllBlank(SplitLines(text));
  }
}
