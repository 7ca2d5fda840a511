/** The CSV reader of the dashboard (`parseCSVLine` and `parseCSV` in app.js):
    a one-pass scanner with a single "inside quotes" flag, and a sheet parser
    that takes the first line as the header row and keeps every later line
    that has a non-blank cell. */
module Csv {
  import opened Text
  import opened Seqs

  const Quote: char := '"'
  const Comma: char := ','
  const Newline: char := '\n'

  /** The scanner's state after some prefix of a line: the cells it has closed
      (not yet trimmed), the text of the cell it is reading, and whether a
      quoted span is open. */
  datatype Scanner = Scanner(cells: seq<string>, current: string, inQuotes: bool)

  const Start := Scanner([], "", false)

  /** One character of the scan: a quote flips the flag and is dropped, a comma
      outside quotes closes the cell, anything else is kept. */
  function Step(st: Scanner, c: char): Scanner
  {
    if c == Quote then st.(inQuotes := !st.inQuotes)
    else if c == Comma && !st.inQuotes then Scanner(st.cells + [st.current], "", st.inQuotes)
    else st.(current := st.current + [c])
  }

  /** The scanner's state after reading `s` from `st`, left to right. */
  function Run(st: Scanner, s: string): Scanner
  {
    if |s| == 0 then st else Step(Run(st, s[..|s| - 1]), s[|s| - 1])
  }

  /** Every cell of a state, the one still open included. */
  function Finish(st: Scanner): seq<string>
  {
    st.cells + [st.current]
  }

  /** The cells of `line` before trimming. */
  function RawCells(line: string): seq<string>
  {
    Finish(Run(Start, line))
  }

  /** Each string of `cells`, trimmed. */
  function TrimAll(cells: seq<string>): (r: seq<string>)
    ensures |r| == |cells|
    ensures forall i :: 0 <= i < |r| ==> r[i] == Trim(cells[i])
  {
    seq(|cells|, i requires 0 <= i < |cells| => Trim(cells[i]))
  }

  /** The positions of the commas of `line` that separate cells: those preceded
      by an even number of quotes. */
  function Separators(line: string): set<nat>
  {
    set i: nat | i < |line| && line[i] == Comma && Count(line[..i], Quote) % 2 == 0
  }

  /** `parseCSVLine`: the trimmed cells of one line. There is always at least
      one cell, and no cell keeps a quote or surrounding whitespace. */
  function ParseLine(line: string): (cells: seq<string>)
    ensures |cells| >= 1
    ensures forall i :: 0 <= i < |cells| ==> IsTrimmed(cells[i]) && Quote !in cells[i]
  {
    RunDropsQuotes(Start, line);
    TrimAll(RawCells(line))
  }

  /** Scanning a concatenation is scanning its parts one after the other. */
  lemma {:induction false} RunConcat(st: Scanner, a: string, b: string)
    ensures Run(st, a + b) == Run(Run(st, a), b)
  {
    if |b| == 0 {
      assert a + b == a;
    } else {
      assert (a + b)[..|a + b| - 1] == a + b[..|b| - 1];
      RunConcat(st, a, b[..|b| - 1]);
    }
  }

  /** After `s` the quote flag has flipped once per quote in `s`. */
  lemma {:induction false} RunQuoteParity(st: Scanner, s: string)
    ensures Run(st, s).inQuotes == (st.inQuotes != (Count(s, Quote) % 2 == 1))
  {
    if |s| > 0 {
      RunQuoteParity(st, s[..|s| - 1]);
    }
  }

  /** Extending a line by one character adds a separator exactly when that
      character is a comma after an even number of quotes. */
  lemma SeparatorsSnoc(s: string, c: char)
    ensures Separators(s + [c])
         == Separators(s) + (if c == Comma && Count(s, Quote) % 2 == 0 then {|s|} else {})
  {
    var t := s + [c];
    var extra: set<nat> := if c == Comma && Count(s, Quote) % 2 == 0 then {|s|} else {};
    forall i: nat ensures i in Separators(t) <==> i in Separators(s) + extra {
      if i < |s| {
        assert t[..i] == s[..i];
      } else if i == |s| {
        assert t[..|s|] == s;
      }
    }
  }

  /** The scanner closes one cell per separating comma. */
  lemma {:induction false} RunCellCount(line: string)
    ensures |Run(Start, line).cells| == |Separators(line)|
  {
    if |line| == 0 {
      assert Separators(line) == {};
    } else {
      var s := line[..|line| - 1];
      var c := line[|line| - 1];
      RunCellCount(s);
      RunQuoteParity(Start, s);
      SeparatorsSnoc(s, c);
      assert s + [c] == line;
      assert |s| !in Separators(s);
    }
  }

  /** A line has one cell more than it has separating commas. */
  lemma ParseLineCellCount(line: string)
    ensures |ParseLine(line)| == 1 + |Separators(line)|
  {
    RunCellCount(line);
  }

  /** No state of the scanner holds a quote. */
  predicate QuoteFree(st: Scanner)
  {
    Quote !in st.current && forall i :: 0 <= i < |st.cells| ==> Quote !in st.cells[i]
  }

  lemma {:induction false} RunDropsQuotes(st: Scanner, s: string)
    requires QuoteFree(st)
    ensures QuoteFree(Run(st, s))
  {
    if |s| > 0 {
      RunDropsQuotes(st, s[..|s| - 1]);
    }
  }

  /** Joining the cells with commas gives back the text read with its quotes
      removed: the scanner loses nothing but quotes. */
  lemma {:induction false} RunJoin(st: Scanner, s: string)
    ensures Join(Finish(Run(st, s)), Comma) == Join(Finish(st), Comma) + Remove(s, Quote)
  {
    if |s| > 0 {
      var s' := s[..|s| - 1];
      var c := s[|s| - 1];
      RunJoin(st, s');
      var m := Run(st, s');
      if c == Quote {
      } else if c == Comma && !m.inQuotes {
        JoinAppend(Finish(m), "", Comma);
      } else {
        JoinExtendLast(m.cells, m.current, [c], Comma);
      }
    }
  }

  /** The cells of a line, joined with commas, are the line without its quotes. */
  lemma RawCellsJoin(line: string)
    ensures Join(RawCells(line), Comma) == Remove(line, Quote)
  {
    RunJoin(Start, line);
  }

  /** Cells already closed are carried through the rest of the scan unchanged. */
  lemma {:induction false} RunKeepsClosedCells(p: seq<string>, st: Scanner, s: string)
    ensures Run(st.(cells := p + st.cells), s) == Run(st, s).(cells := p + Run(st, s).cells)
  {
    if |s| > 0 {
      RunKeepsClosedCells(p, st, s[..|s| - 1]);
    }
  }

  /** The scanner's view of a comma after a span with balanced quotes: the
      cells of the two sides, one after the other. */
  lemma RawCellsConcat(a: string, b: string)
    requires Count(a, Quote) % 2 == 0
    ensures RawCells(a + [Comma] + b) == RawCells(a) + RawCells(b)
  {
    RunConcat(Start, a + [Comma], b);
    RunQuoteParity(Start, a);
    var m := Run(Start, a);
    assert (a + [Comma])[..|a|] == a;
    var st := Run(Start, a + [Comma]);
    assert st == Scanner(m.cells + [m.current], "", false);
    RunKeepsClosedCells(m.cells + [m.current], Start, b);
    assert Start.(cells := m.cells + [m.current] + Start.cells) == st;
  }

  /** A comma after a span with balanced quotes splits a line into two lines
      read independently. */
  lemma ParseLineConcat(a: string, b: string)
    requires Count(a, Quote) % 2 == 0
    ensures ParseLine(a + [Comma] + b) == ParseLine(a) + ParseLine(b)
  {
    var ab := a + [Comma] + b;
    RawCellsConcat(a, b);
    ParseLineTrimsRawCells(ab);
    ParseLineTrimsRawCells(a);
    ParseLineTrimsRawCells(b);
    TrimAllConcat(RawCells(a), RawCells(b));
  }

  /** A line's cells are its raw cells, each trimmed. */
  lemma ParseLineTrimsRawCells(line: string)
    ensures ParseLine(line) == TrimAll(RawCells(line))
  {
  }

  /** Trimming cell by cell commutes with concatenation. */
  lemma TrimAllConcat(a: seq<string>, b: seq<string>)
    ensures TrimAll(a + b) == TrimAll(a) + TrimAll(b)
  {
    var l := TrimAll(a + b);
    var r := TrimAll(a) + TrimAll(b);
    assert |l| == |r|;
    forall i | 0 <= i < |l| ensures l[i] == r[i] {
      if i < |a| {
        assert (a + b)[i] == a[i];
      } else {
        assert (a + b)[i] == b[i - |a|];
      }
    }
  }

  /** Inside an open quoted span, quote-free text (commas included) goes into
      the current cell. */
  lemma {:induction false} RunInsideQuotes(st: Scanner, s: string)
    requires st.inQuotes
    requires Quote !in s
    ensures Run(st, s) == st.(current := st.current + s)
  {
    if |s| > 0 {
      RunInsideQuotes(st, s[..|s| - 1]);
      assert st.current + s[..|s| - 1] + [s[|s| - 1]] == st.current + s;
    }
  }

  /** A quoted span is one cell, commas and all, with the quotes dropped. */
  lemma QuotedCell(s: string)
    requires Quote !in s
    ensures ParseLine([Quote] + s + [Quote]) == [Trim(s)]
  {
    var open := Scanner([], "", true);
    RunConcat(Start, [Quote], s);
    assert Run(Start, [Quote]) == open by {
      assert [Quote][..0] == [];
    }
    RunInsideQuotes(open, s);
    assert open.current + s == s;
    var line := [Quote] + s + [Quote];
    assert line[..|line| - 1] == [Quote] + s;
    assert Run(Start, line) == Scanner([], s, false);
    assert RawCells(line) == [s];
    ParseLineTrimsRawCells(line);
    TrimAllSingle(s);
  }

  /** One cell, trimmed. */
  lemma TrimAllSingle(x: string)
    ensures TrimAll([x]) == [Trim(x)]
  {
  }

  /** An unbalanced quote is not an error: it absorbs the rest of the line
      into one cell. */
  lemma UnclosedQuote(s: string)
    requires Quote !in s
    ensures ParseLine([Quote] + s) == [Trim(s)]
  {
    var open := Scanner([], "", true);
    RunConcat(Start, [Quote], s);
    assert Run(Start, [Quote]) == open by {
      assert [Quote][..0] == [];
    }
    RunInsideQuotes(open, s);
    assert open.current + s == s;
    assert Run(Start, [Quote] + s) == Scanner([], s, true);
    assert RawCells([Quote] + s) == [s];
    ParseLineTrimsRawCells([Quote] + s);
    TrimAllSingle(s);
  }

  /** Without quotes no comma is ever inside a quoted span. */
  lemma {:induction false} RunWithoutQuotes(st: Scanner, s: string)
    requires !st.inQuotes && Quote !in s
    requires Comma !in st.current && forall i :: 0 <= i < |st.cells| ==> Comma !in st.cells[i]
    ensures !Run(st, s).inQuotes
    ensures Comma !in Run(st, s).current
    ensures forall i :: 0 <= i < |Run(st, s).cells| ==> Comma !in Run(st, s).cells[i]
  {
    if |s| > 0 {
      RunWithoutQuotes(st, s[..|s| - 1]);
    }
  }

  /** On a line without quotes the cells are the comma-split fields, trimmed. */
  lemma UnquotedLine(line: string)
    requires Quote !in line
    ensures ParseLine(line) == TrimAll(Split(line, Comma))
  {
    RunWithoutQuotes(Start, line);
    RawCellsJoin(line);
    SplitJoin(RawCells(line), Comma);
  }

  /** A cell with neither quotes nor commas is read as itself, trimmed. */
  lemma PlainCell(x: string)
    requires Quote !in x && Comma !in x
    ensures ParseLine(x) == [Trim(x)]
  {
    UnquotedLine(x);
    SplitSingle(x, Comma);
  }

  /** A cell with neither quotes, commas nor surrounding whitespace. */
  predicate IsPlainCell(x: string)
  {
    Quote !in x && Comma !in x && IsTrimmed(x)
  }

  /** The text of a quoted span holds two quotes. */
  lemma QuotedSpanQuotes(y: string)
    requires Quote !in y
    ensures Count([Quote] + y + [Quote], Quote) == 2
  {
    var q := [Quote] + y + [Quote];
    assert q[..|q| - 1] == [Quote] + y;
    QuoteCountPrefix(y);
  }

  /** A quoted span, a comma and a plain cell read as two cells. */
  lemma QuotedThenPlain(y: string, z: string)
    requires IsPlainCell(z)
    requires Quote !in y && IsTrimmed(y)
    ensures ParseLine([Quote] + y + [Quote] + [Comma] + z) == [y, z]
  {
    var q := [Quote] + y + [Quote];
    QuotedCell(y);
    assert ParseLine(q) == [y];
    PlainCell(z);
    assert ParseLine(z) == [z];
    QuotedSpanQuotes(y);
    ParseLineConcat(q, z);
    assert ParseLine(q + [Comma] + z) == [y] + [z];
    PairConcat(y, z);
  }

  /** The shape `a,"b",c`: a quoted middle cell keeps its commas, e.g.
      `a,"b,c",d` reads as the three cells `a`, `b,c` and `d`. */
  lemma QuotedMiddleCell(x: string, y: string, z: string)
    requires IsPlainCell(x) && IsPlainCell(z)
    requires Quote !in y && IsTrimmed(y)
    ensures ParseLine(x + [Comma] + ([Quote] + y + [Quote]) + [Comma] + z) == [x, y, z]
  {
    var rest := [Quote] + y + [Quote] + [Comma] + z;
    QuotedThenPlain(y, z);
    PlainCell(x);
    ParseLineConcat(x, rest);
    assert x + [Comma] + ([Quote] + y + [Quote]) + [Comma] + z == x + [Comma] + rest;
  }

  /** The empty line is one empty cell. */
  lemma EmptyLine()
    ensures ParseLine([]) == [""]
  {
    assert RawCells([]) == [""];
  }

  /** A leading quote followed by quote-free text holds one quote. */
  lemma {:induction false} QuoteCountPrefix(y: string)
    requires Quote !in y
    ensures Count([Quote] + y, Quote) == 1
  {
    if |y| == 0 {
      assert ([Quote] + y)[..0] == [];
    } else {
      QuoteCountPrefix(y[..|y| - 1]);
      assert ([Quote] + y)[..|y|] == [Quote] + y[..|y| - 1];
    }
  }

  /** A trailing comma yields a trailing empty cell: `a,b,` reads as `a`, `b`
      and the empty cell. */
  lemma TrailingComma(x: string, y: string)
    requires IsPlainCell(x) && IsPlainCell(y)
    ensures ParseLine(x + [Comma] + y + [Comma]) == [x, y, ""]
  {
    var e: string := [];
    PlainCell(x);
    PlainCell(y);
    EmptyLine();
    ParseLineConcat(y, e);
    assert y + [Comma] + e == y + [Comma];
    ParseLineConcat(x, y + [Comma]);
    assert x + [Comma] + y + [Comma] == x + [Comma] + (y + [Comma]);
  }

  /** `parseCSVLine` as the loop app.js runs: cells are trimmed as they are
      closed, and the open cell is closed at the end of the line. */
  method ScanLine(line: string) returns (cells: seq<string>)
    ensures cells == ParseLine(line)
  {
    cells := [];
    var current := "";
    var inQuotes := false;
    var i := 0;
    while i < |line|
      invariant 0 <= i <= |line|
      invariant Run(Start, line[..i]).current == current
      invariant Run(Start, line[..i]).inQuotes == inQuotes
      invariant cells == TrimAll(Run(Start, line[..i]).cells)
    {
      var c := line[i];
      RunPrefixStep(line, i);
      if c == Quote {
        inQuotes := !inQuotes;
      } else if c == Comma && !inQuotes {
        TrimAllSnoc(Run(Start, line[..i]).cells, current);
        cells := cells + [Trim(current)];
        current := "";
      } else {
        current := current + [c];
      }
      i := i + 1;
    }
    assert line[..i] == line;
    ParseLineTrimsRawCells(line);
    TrimAllSnoc(Run(Start, line).cells, current);
    cells := cells + [Trim(current)];
  }

  /** Reading one more character of a line is one more step. */
  lemma RunPrefixStep(line: string, i: int)
    requires 0 <= i < |line|
    ensures Run(Start, line[..i + 1]) == Step(Run(Start, line[..i]), line[i])
  {
    assert line[..i + 1][..i] == line[..i];
  }

  /** Trimming a closed cell extends the trimmed cells by one. */
  lemma TrimAllSnoc(cells: seq<string>, x: string)
    ensures TrimAll(cells + [x]) == TrimAll(cells) + [Trim(x)]
  {
    TrimAllConcat(cells, [x]);
    TrimAllSingle(x);
  }

  /** The lines of the text after trimming it: `csvText.trim().split('\n')`.
      There is always one, so the sheet parser's guard for zero lines never
      fires. */
  function Lines(text: string): (lines: seq<string>)
    ensures |lines| >= 1
    ensures Join(lines, Newline) == Trim(text)
    ensures forall i :: 0 <= i < |lines| ==> Newline !in lines[i]
  {
    Split(Trim(text), Newline)
  }

  /** `values.some(v => v.trim())`: some cell is not blank, that is, does not
      trim to the empty string. */
  predicate HasContent(row: seq<string>)
  {
    exists i :: 0 <= i < |row| && !IsBlank(row[i])
  }

  /** The rows that have content, in their original order and unchanged. */
  function KeepRows(rows: seq<seq<string>>): (kept: seq<seq<string>>)
    ensures |kept| <= |rows|
    ensures forall i :: 0 <= i < |kept| ==> HasContent(kept[i])
    ensures forall r :: r in kept ==> r in rows
  {
    if |rows| == 0 then []
    else
      var last := rows[|rows| - 1];
      KeepRows(rows[..|rows| - 1]) + (if HasContent(last) then [last] else [])
  }

  /** Keeping rows distributes over concatenation: with the one-row case this
      says the kept rows are exactly the rows with content, in order. */
  lemma {:induction false} KeepRowsConcat(a: seq<seq<string>>, b: seq<seq<string>>)
    ensures KeepRows(a + b) == KeepRows(a) + KeepRows(b)
  {
    if |b| == 0 {
      assert a + b == a;
    } else {
      KeepRowsConcat(a, b[..|b| - 1]);
      assert (a + b)[..|a + b| - 1] == a + b[..|b| - 1];
    }
  }

  /** No row with content is dropped. */
  lemma {:induction false} KeepRowsComplete(rows: seq<seq<string>>, i: int)
    requires 0 <= i < |rows| && HasContent(rows[i])
    ensures rows[i] in KeepRows(rows)
  {
    if i < |rows| - 1 {
      KeepRowsComplete(rows[..|rows| - 1], i);
    }
  }

  /** Each line parsed on its own. */
  function ParseLines(lines: seq<string>): (rows: seq<seq<string>>)
    ensures |rows| == |lines|
    ensures forall i :: 0 <= i < |rows| ==> rows[i] == ParseLine(lines[i])
  {
    seq(|lines|, i requires 0 <= i < |lines| => ParseLine(lines[i]))
  }

  /** Parsing one more line adds its parse at the end. */
  lemma ParseLinesSnoc(lines: seq<string>, i: int)
    requires 1 <= i < |lines|
    ensures ParseLines(lines[1..i + 1]) == ParseLines(lines[1..i]) + [ParseLine(lines[i])]
  {
    assert lines[1..i + 1] == lines[1..i] + [lines[i]];
  }

  /** One more row is kept exactly when it has content. */
  lemma KeepRowsSnoc(rows: seq<seq<string>>, row: seq<string>)
    ensures KeepRows(rows + [row]) == KeepRows(rows) + (if HasContent(row) then [row] else [])
  {
    assert (rows + [row])[..|rows|] == rows;
  }

  /** A parsed sheet: the header cells and the data rows below them. */
  datatype Sheet = Sheet(headers: seq<string>, data: seq<seq<string>>)

  /** `parseCSV`: the first line of the trimmed text gives the headers; every
      later line with a non-blank cell becomes a data row, neither padded nor
      truncated. */
  function ParseCsv(text: string): (sheet: Sheet)
    ensures |sheet.headers| >= 1
    ensures sheet.headers == ParseLine(Lines(text)[0])
    ensures |sheet.data| < |Lines(text)|
    ensures forall i :: 0 <= i < |sheet.data| ==> HasContent(sheet.data[i])
    ensures forall r :: r in sheet.data ==> r in ParseLines(Lines(text)[1..])
  {
    var lines := Lines(text);
    Sheet(ParseLine(lines[0]), KeepRows(ParseLines(lines[1..])))
  }

  /** Every later line that has a non-blank cell appears among the data rows. */
  lemma ParseCsvKeepsContent(text: string, j: int)
    requires 1 <= j < |Lines(text)|
    ensures HasContent(ParseLine(Lines(text)[j])) ==> ParseLine(Lines(text)[j]) in ParseCsv(text).data
  {
    var lines := Lines(text);
    var rows := ParseLines(lines[1..]);
    ParseCsvData(text);
    ParsedLineAt(rows, lines, j);
    if HasContent(rows[j - 1]) {
      KeepRowsComplete(rows, j - 1);
    }
  }

  /** The data rows are the content-bearing rows among the parsed lines
      after the header line. */
  lemma ParseCsvData(text: string)
    ensures ParseCsv(text).data == KeepRows(ParseLines(Lines(text)[1..]))
  {
  }

  /** Row `j - 1` of the parsed body is line `j` of the text, parsed. */
  lemma ParsedLineAt(rows: seq<seq<string>>, lines: seq<string>, j: int)
    requires 1 <= j < |lines|
    requires rows == ParseLines(lines[1..])
    ensures rows[j - 1] == ParseLine(lines[j])
  {
  }

  /** Empty or whitespace-only text reads as a single empty header and no
      data: `split` yields one empty line, so the headers are `[""]`. */
  lemma BlankText(text: string)
    requires IsBlank(text)
    ensures ParseCsv(text) == Sheet([""], [])
  {
    assert Trim(text) == [];
    assert Split([], Newline) == [""];
    EmptyLine();
  }

  /** `parseCSV` as the loop app.js runs. */
  method ReadSheet(text: string) returns (sheet: Sheet)
    ensures sheet == ParseCsv(text)
  {
    var lines := Lines(text);
    var headers := ScanLine(lines[0]);
    var data := ReadRows(lines);
    SheetOfLines(text);
    sheet := Sheet(headers, data);
  }

  /** The row loop of `parseCSV`: scan each line after the first and keep it
      when one of its cells is not blank. */
  method ReadRows(lines: seq<string>) returns (data: seq<seq<string>>)
    requires |lines| >= 1
    ensures data == KeepRows(ParseLines(lines[1..|lines|]))
  {
    data := [];
    var i := 1;
    while i < |lines|
      invariant 1 <= i <= |lines|
      invariant data == KeepRows(ParseLines(lines[1..i]))
    {
      var values := ScanLine(lines[i]);
      KeptRowsStep(lines, i);
      if HasContent(values) {
        data := data + [values];
      }
      i := i + 1;
    }
  }

  /** Reading line `i` keeps its row exactly when the row has content. */
  lemma KeptRowsStep(lines: seq<string>, i: int)
    requires 1 <= i < |lines|
    ensures KeepRows(ParseLines(lines[1..i + 1]))
         == KeepRows(ParseLines(lines[1..i])) + (if HasContent(ParseLine(lines[i])) then [ParseLine(lines[i])] else [])
  {
    ParseLinesSnoc(lines, i);
    KeepRowsSnoc(ParseLines(lines[1..i]), ParseLine(lines[i]));
  }

  /** The headers and the rows kept from every line after the first make up
      the parsed sheet. */
  lemma SheetOfLines(text: string)
    ensures Sheet(ParseLine(Lines(text)[0]), KeepRows(ParseLines(Lines(text)[1..|Lines(text)|]))) == ParseCsv(text)
  {
    var lines := Lines(text);
    SliceToEnd(lines, 1);
    ParseCsvData(text);
  }
}
