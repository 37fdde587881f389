/**
 * The TypeScript backend's CSV reader (packages/backend/src/csv.ts):
 * `splitCsvLine` and `parseCsv` are loops, proved to compute the reference
 * semantics of module CsvSpec; lines are separated by `text.split(/\r?\n/)`.
 */
module CsvTs {
  import opened Wrappers
  import opened Text
  import opened CsvSpec

  /** `line[i]` as JavaScript reads it: `undefined` past the end. */
  function CharAt(line: string, i: nat): (r: Option<char>)
    ensures r.Some? <==> i < |line|
    ensures r.Some? ==> r.value == line[i]
  {
    if i < |line| then Some(line[i]) else None
  }

  /** Splits one line into trimmed cells, honouring quoted fields and `""` escapes. */
  method SplitCsvLine(line: string, delimiter: char) returns (cells: seq<string>)
    ensures cells == SplitCells(line, delimiter)
  {
    cells := [];
    var current := "";
    var inQuotes := false;
    ghost var raw: seq<string> := [];
    ghost var tokens: seq<Token> := [];
    var i := 0;
    while i < |line|
      invariant 0 <= i <= |line|
      invariant tokens + Lex(line[i..], delimiter, inQuotes) == Lex(line, delimiter, false)
      invariant Fields(tokens) == raw + [current]
      invariant cells == TrimAll(raw)
    {
      var ch := line[i];
      if ch == '"' {
        var isEscapedQuote := inQuotes && CharAt(line, i + 1) == Some('"');
        if isEscapedQuote {
          LexEscapedQuote(line, i, delimiter);
          Advance(Lex(line, delimiter, false), tokens, Ch('"'), Lex(line[i + 2..], delimiter, inQuotes));
          current := current + ['"'];
          FieldsSnoc(tokens, Ch('"'));
          tokens := tokens + [Ch('"')];
          i := i + 2;
          continue;
        }
        LexToggle(line, i, delimiter, inQuotes);
        inQuotes := !inQuotes;
        i := i + 1;
        continue;
      }
      if ch == delimiter && !inQuotes {
        LexSep(line, i, delimiter);
        Advance(Lex(line, delimiter, false), tokens, Sep, Lex(line[i + 1..], delimiter, inQuotes));
        cells := cells + [Trim(current)];
        TrimAllSnoc(raw, current);
        FieldsSnoc(tokens, Sep);
        tokens := tokens + [Sep];
        raw := raw + [current];
        current := "";
        i := i + 1;
        continue;
      }
      LexChar(line, i, delimiter, inQuotes);
      Advance(Lex(line, delimiter, false), tokens, Ch(ch), Lex(line[i + 1..], delimiter, inQuotes));
      current := current + [ch];
      FieldsSnoc(tokens, Ch(ch));
      tokens := tokens + [Ch(ch)];
      i := i + 1;
    }
    assert tokens == Lex(line, delimiter, false);
    TrimAllSnoc(raw, current);
    cells := cells + [Trim(current)];
  }

  /** The pieces of `text.split(/\r?\n/)`, `current` being the piece read so far. */
  function SplitLinesFrom(text: string, current: string): seq<string>
    decreases |text|
  {
    if text == [] then [current]
    else if text[0] == '\r' && |text| > 1 && text[1] == '\n' then [current] + SplitLinesFrom(text[2..], "")
    else if text[0] == '\n' then [current] + SplitLinesFrom(text[1..], "")
    else SplitLinesFrom(text[1..], current + [text[0]])
  }

  function SplitLines(text: string): seq<string> {
    SplitLinesFrom(text, "")
  }

  /** No piece of the split holds a line feed. */
  lemma {:induction false} PiecesHaveNoNewline(text: string, current: string)
    requires '\n' !in current
    ensures forall p :: p in SplitLinesFrom(text, current) ==> '\n' !in p
    decreases |text|
  {
    if text == [] {
    } else if text[0] == '\r' && |text| > 1 && text[1] == '\n' {
      PiecesHaveNoNewline(text[2..], "");
    } else if text[0] == '\n' {
      PiecesHaveNoNewline(text[1..], "");
    } else {
      PiecesHaveNoNewline(text[1..], current + [text[0]]);
    }
  }

  /** Parses an upload: blank lines dropped, the first line the header, every other line a row or a diagnostic. */
  method ParseCsv(text: string) returns (r: Result<CsvData, ParseError>)
    ensures r == ParseLines(NonBlank(SplitLines(text)))
  {
    var lines := NonBlank(SplitLines(text));
    r := ParseTable(lines);
  }

  /** The rest of the parse, once the blank lines are dropped: the empty-file check, the header, then the data lines. */
  method ParseTable(lines: seq<string>) returns (r: Result<CsvData, ParseError>)
    ensures r == ParseLines(lines)
  {
    if |lines| == 0 {
      assert lines == [];
      return Failure(EmptyFile);
    }
    var delimiter := DetectDelimiter(lines[0]);
    var columns := SplitCsvLine(lines[0], delimiter);
    if |columns| == 0 {
      return Failure(HeaderUnreadable);
    }
    var rows, errors, invalidRows := ReadRows(lines, delimiter, |columns|);
    r := Success(CsvData(columns, rows, |rows| + invalidRows, invalidRows, delimiter, errors));
    ParseLinesOf(lines, delimiter, columns, rows, errors);
  }

  /** The loop over the data lines: a line of the header's width is kept, any other is counted and reported by its 1-based number. */
  method ReadRows(lines: seq<string>, delimiter: char, width: nat) returns (rows: seq<seq<string>>, errors: seq<string>, invalidRows: nat)
    requires |lines| >= 1
    ensures rows == KeptRows(lines, delimiter, width, |lines|)
    ensures errors == Diagnostics(lines, delimiter, width, |lines|)
    ensures invalidRows == |errors|
  {
    rows, errors, invalidRows := [], [], 0;
    var i := 1;
    while i < |lines|
      invariant 1 <= i <= |lines|
      invariant rows == KeptRows(lines, delimiter, width, i)
      invariant errors == Diagnostics(lines, delimiter, width, i)
      invariant invalidRows == |errors|
    {
      var line := lines[i];
      var cells := SplitCsvLine(line, delimiter);
      if |cells| != width {
        ParseStepReported(lines, delimiter, width, i + 1);
        invalidRows := invalidRows + 1;
        errors := errors + [Diagnostic(i + 1, width, |cells|)];
        i := i + 1;
        continue;
      }
      ParseStepKept(lines, delimiter, width, i + 1);
      rows := rows + [cells];
      i := i + 1;
    }
  }

  /** The pieces of `current + text` are all blank exactly when that text is all whitespace. */
  lemma {:induction false} PiecesBlankIffSpace(text: string, current: string)
    ensures AllBlank(SplitLinesFrom(text, current)) <==> AllSpace(current + text)
    decreases |text|
  {
    if text == [] {
      assert current + text == current;
      assert SplitLinesFrom(text, current) == [current];
      AllBlankCons(current, []);
    } else if text[0] == '\r' && |text| > 1 && text[1] == '\n' {
      PiecesBlankIffSpace(text[2..], "");
      AllBlankCons(current, SplitLinesFrom(text[2..], ""));
      AllSpaceConcat(current, text);
      AllSpaceConcat(text[..2], text[2..]);
      assert text == text[..2] + text[2..];
      assert "" + text[2..] == text[2..];
    } else if text[0] == '\n' {
      PiecesBlankIffSpace(text[1..], "");
      AllBlankCons(current, SplitLinesFrom(text[1..], ""));
      AllSpaceConcat(current, text);
      AllSpaceConcat(text[..1], text[1..]);
      assert text == text[..1] + text[1..];
      assert "" + text[1..] == text[1..];
    } else {
      PiecesBlankIffSpace(text[1..], current + [text[0]]);
      assert current + [text[0]] + text[1..] == current + text;
    }
  }

  /** `parseCsv` throws "CSV-Datei ist leer." exactly when the upload is whitespace only. */
  lemma ParseFailsIffBlankText(text: string)
    ensures ParseLines(NonBlank(SplitLines(text))).Failure? <==> AllSpace(text)
    ensures ParseLines(NonBlank(SplitLines(text))).Failure? ==> ParseLines(NonBlank(SplitLines(text))).error == EmptyFile
  {
    PiecesBlankIffSpace(text, "");
    NonBlankEmptyIffAllBlank(SplitLines(text));
    assert "" + text == text;
  }
}
