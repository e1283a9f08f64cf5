/** The CSV parser reads back what section 2 of RFC 4180 prints; without quotes it splits lines and fields. */
module CsvPrinting {
  import opened Sequences
  import opened Csv
  import opened Text

  /** The delimiters that the connector's config admits. */
  predicate Admitted(d: char) {
    d != '\n' && d != '\r' && d != '"'
  }

  // ---- Printing

  /** A field and whether it is printed in quotes. */
  datatype Cell = Cell(value: string, quoted: bool)

  /** A field with a delimiter, a quote or a line break in it must be quoted; any field may be. */
  predicate Printable(c: Cell, d: char) {
    c.quoted || forall x <- c.value :: !Stops(x, d) && x != '"'
  }

  function DoubleQuotes(v: string): string {
    if v == "" then ""
    else if v[0] == '"' then "\"\"" + DoubleQuotes(v[1..])
    else [v[0]] + DoubleQuotes(v[1..])
  }

  function PrintCell(c: Cell): string {
    if c.quoted then "\"" + DoubleQuotes(c.value) + "\"" else c.value
  }

  function PrintCells(cells: seq<Cell>, d: char): string
    requires cells != []
  {
    if |cells| == 1 then PrintCell(cells[0])
    else PrintCell(cells[0]) + [d] + PrintCells(cells[1..], d)
  }

  /** A row and whether its line ends in CRLF or in LF. */
  datatype Line = Line(cells: seq<Cell>, crlf: bool)

  function Terminator(line: Line): string {
    if line.crlf then "\r\n" else "\n"
  }

  /** The text of a table; the last line ending may be left out. */
  function PrintTable(lines: seq<Line>, d: char, terminated: bool): string
    requires forall l <- lines :: l.cells != []
  {
    if lines == [] then ""
    else
      PrintCells(lines[0].cells, d) + (Ending(lines, terminated) + PrintTable(lines[1..], d, terminated))
  }

  /** The line ending behind the first line. */
  function Ending(lines: seq<Line>, terminated: bool): (eol: string)
    requires lines != []
    ensures eol == "" || eol == "\n" || eol == "\r\n"
    ensures eol == "" ==> |lines| == 1
  {
    if |lines| == 1 && !terminated then "" else Terminator(lines[0])
  }

  function Values(cells: seq<Cell>): (vs: seq<string>)
    ensures |vs| == |cells|
  {
    seq(|cells|, i requires 0 <= i < |cells| => cells[i].value)
  }

  predicate PrintableLines(lines: seq<Line>, d: char) {
    forall l <- lines :: l.cells != [] && forall c <- l.cells :: Printable(c, d)
  }

  /** What parsing must give: the rows in order without those that are one empty field, or the field-limit error. */
  function Expected(lines: seq<Line>, rows: seq<seq<string>>): Table {
    if lines == [] then Ok(rows)
    else if |lines[0].cells| > 1000 then TooManyFields
    else Expected(lines[1..], Keep(rows, Values(lines[0].cells)))
  }

  // ---- Reading back one field

  lemma {:induction false} QuotedReads(text: string, pos: nat, v: string, acc: string)
    requires Has(text, pos, DoubleQuotes(v) + "\"")
    requires var end := pos + |DoubleQuotes(v)| + 1; end < |text| ==> text[end] != '"'
    ensures Quoted(text, pos, acc) == (acc + v, pos + |DoubleQuotes(v)| + 1)
    decreases |v|
  {
    var p := DoubleQuotes(v) + "\"";
    HasElement(text, pos, p, 0);
    if v == "" {
      assert acc + v == acc;
    } else {
      var one := if v[0] == '"' then "\"\"" else [v[0]];
      assert p == one + (DoubleQuotes(v[1..]) + "\"");
      HasParts(text, pos, one, DoubleQuotes(v[1..]) + "\"");
      if v[0] == '"' {
        HasElement(text, pos, one, 1);
      }
      QuotedReads(text, pos + |one|, v[1..], acc + [v[0]]);
      assert acc + [v[0]] + v[1..] == acc + v;
    }
  }

  lemma {:induction false} BareReads(text: string, pos: nat, v: string, d: char)
    requires Has(text, pos, v)
    requires forall x <- v :: !Stops(x, d)
    requires pos + |v| < |text| ==> Stops(text[pos + |v|], d)
    ensures BareEnd(text, d, pos) == pos + |v|
    decreases |v|
  {
    if v == "" {
    } else {
      HasElement(text, pos, v, 0);
      HasTail(text, pos, v);
      BareReads(text, pos + 1, v[1..], d);
    }
  }

  /** A printed field that is not the empty end of the text is read back. */
  lemma CellReads(text: string, pos: nat, c: Cell, d: char)
    requires Admitted(d) && Printable(c, d)
    requires Has(text, pos, PrintCell(c)) && pos < |text|
    requires var end := pos + |PrintCell(c)|; end < |text| ==> Stops(text[end], d)
    ensures FieldAt(text, d, pos) == (c.value, pos + |PrintCell(c)|)
    ensures text[pos] == '"' <==> c.quoted
  {
    if c.quoted {
      HasElement(text, pos, PrintCell(c), 0);
      var body := DoubleQuotes(c.value) + "\"";
      assert PrintCell(c) == "\"" + body;
      HasParts(text, pos, "\"", body);
      QuotedReads(text, pos + 1, c.value, "");
      assert "" + c.value == c.value;
    } else {
      BareReads(text, pos, c.value, d);
      HasSlice(text, pos, c.value);
      if c.value != "" {
        HasElement(text, pos, c.value, 0);
      }
    }
  }

  // ---- Reading back one row

  /** Behind a printed row: the end of the text, LF or CRLF. */
  predicate AtLineEnd(text: string, pos: nat) {
    || pos == |text|
    || (pos < |text| && text[pos] == '\n')
    || (pos + 1 < |text| && text[pos] == '\r' && text[pos + 1] == '\n')
  }

  /** One step of a row. */
  lemma RowStep(text: string, d: char, pos: nat, fields: seq<string>, v: string, end: nat)
    requires pos < |text| && |fields| < 1000
    requires FieldAt(text, d, pos) == (v, end)
    ensures end <= |text|
    ensures RowFrom(text, d, pos, fields) ==
            if end < |text| && text[end] == d then RowFrom(text, d, end + 1, fields + [v])
            else Row(fields + [v], LineEnd(text, end, text[pos] == '"'))
  {
  }

  lemma LastCellReads(text: string, pos: nat, c: Cell, d: char, fields: seq<string>)
    requires Admitted(d) && Printable(c, d) && |fields| < 1000
    requires Has(text, pos, PrintCell(c)) && AtLineEnd(text, pos + |PrintCell(c)|)
    ensures RowFrom(text, d, pos, fields) ==
            Row(fields + [c.value], LineEnd(text, pos + |PrintCell(c)|, false))
  {
    var end := pos + |PrintCell(c)|;
    if pos < |text| {
      CellReads(text, pos, c, d);
      RowStep(text, d, pos, fields, c.value, end);
      assert LineEnd(text, end, c.quoted) == LineEnd(text, end, false);
    } else {
      assert PrintCell(c) == "";
    }
  }

  lemma FirstCellReads(text: string, pos: nat, c: Cell, d: char, more: string, fields: seq<string>)
    requires Admitted(d) && Printable(c, d) && |fields| < 1000
    requires Has(text, pos, PrintCell(c) + ([d] + more))
    ensures var next := pos + |PrintCell(c)| + 1;
            Has(text, next, more) && RowFrom(text, d, pos, fields) == RowFrom(text, d, next, fields + [c.value])
  {
    var p := PrintCell(c);
    var end := pos + |p|;
    HasParts(text, pos, p, [d] + more);
    HasParts(text, end, [d], more);
    HasElement(text, end, [d], 0);
    CellReads(text, pos, c, d);
    RowStep(text, d, pos, fields, c.value, end);
  }

  lemma {:induction false} RowReads(text: string, pos: nat, cells: seq<Cell>, d: char, fields: seq<string>, end: nat)
    requires Admitted(d) && cells != [] && forall c <- cells :: Printable(c, d)
    requires Has(text, pos, PrintCells(cells, d)) && end == pos + |PrintCells(cells, d)|
    requires AtLineEnd(text, end)
    ensures RowFrom(text, d, pos, fields) ==
            if |fields| + |cells| > 1000 then TooMany
            else Row(fields + Values(cells), LineEnd(text, end, false))
    decreases |cells|
  {
    var c := cells[0];
    if |fields| >= 1000 {
    } else if |cells| == 1 {
      assert Values(cells) == [c.value];
      LastCellReads(text, pos, c, d, fields);
    } else {
      var rest := cells[1..];
      var more := PrintCells(rest, d);
      PrintFirst(cells, d);
      FirstCellReads(text, pos, c, d, more, fields);
      RowReads(text, pos + |PrintCell(c)| + 1, rest, d, fields + [c.value], end);
      AppendOne(fields, c.value, Values(rest));
    }
  }

  lemma PrintFirst(cells: seq<Cell>, d: char)
    requires |cells| > 1
    ensures PrintCells(cells, d) == PrintCell(cells[0]) + ([d] + PrintCells(cells[1..], d))
    ensures Values(cells) == [cells[0].value] + Values(cells[1..])
  {
  }

  // ---- Reading back a table

  lemma {:induction false} TableReads(text: string, pos: nat, lines: seq<Line>, d: char,
        terminated: bool, rows: seq<seq<string>>)
    requires Admitted(d) && PrintableLines(lines, d)
    requires Has(text, pos, PrintTable(lines, d, terminated))
    requires pos + |PrintTable(lines, d, terminated)| == |text|
    ensures RowsFrom(text, d, pos, rows) == Expected(lines, rows)
    decreases |lines|
  {
    if lines == [] {
    } else {
      var cells := lines[0].cells;
      var next := TopLineReads(text, pos, lines, d, terminated);
      if pos == |text| {
        LastLineIsBlank(lines, d, terminated, rows);
      } else {
        if |cells| <= 1000 {
          TableReads(text, next, lines[1..], d, terminated, Keep(rows, Values(cells)));
        }
        TableStep(text, pos, lines, d, rows, next);
      }
    }
  }

  /** The first line of a table is read, and the other lines stand behind it. */
  lemma TopLineReads(text: string, pos: nat, lines: seq<Line>, d: char, terminated: bool) returns (next: nat)
    requires Admitted(d) && PrintableLines(lines, d) && lines != []
    requires Has(text, pos, PrintTable(lines, d, terminated))
    requires pos + |PrintTable(lines, d, terminated)| == |text|
    ensures PrintableLines(lines[1..], d) && Has(text, next, PrintTable(lines[1..], d, terminated))
    ensures pos <= next && next + |PrintTable(lines[1..], d, terminated)| == |text|
    ensures pos == |text| ==> PrintTable(lines, d, terminated) == ""
    ensures var cells := lines[0].cells;
            RowFrom(text, d, pos, []) == if |cells| > 1000 then TooMany else Row(Values(cells), next)
  {
    var row, eol := PrintCells(lines[0].cells, d), Ending(lines, terminated);
    TablePrints(lines, d, terminated);
    LineReads(text, pos, lines[0].cells, d, row, eol, PrintTable(lines[1..], d, terminated));
    next := pos + |row| + |eol|;
  }

  lemma TablePrints(lines: seq<Line>, d: char, terminated: bool)
    requires lines != [] && PrintableLines(lines, d)
    ensures var row, eol := PrintCells(lines[0].cells, d), Ending(lines, terminated);
            var more := PrintTable(lines[1..], d, terminated);
            PrintTable(lines, d, terminated) == row + (eol + more) && (eol == "" ==> more == "")
    ensures PrintableLines(lines[1..], d)
  {
  }

  /** One line of a table, when those behind it are read back. */
  lemma TableStep(text: string, pos: nat, lines: seq<Line>, d: char, rows: seq<seq<string>>, next: nat)
    requires pos < |text| && lines != []
    requires var cells := lines[0].cells;
             if |cells| > 1000 then RowFrom(text, d, pos, []).TooMany?
             else
               && RowFrom(text, d, pos, []) == Row(Values(cells), next)
               && next <= |text|
               && RowsFrom(text, d, next, Keep(rows, Values(cells))) == Expected(lines[1..], Keep(rows, Values(cells)))
    ensures RowsFrom(text, d, pos, rows) == Expected(lines, rows)
  {
  }

  lemma LastLineIsBlank(lines: seq<Line>, d: char, terminated: bool, rows: seq<seq<string>>)
    requires lines != [] && PrintableLines(lines, d)
    requires PrintTable(lines, d, terminated) == ""
    ensures Expected(lines, rows) == Ok(rows)
  {
    var cells := lines[0].cells;
    assert PrintCells(cells, d) == "" && Ending(lines, terminated) == "";
    EmptyPrint(cells, d);
    assert Values(cells) == [""];
  }

  lemma LineReads(text: string, pos: nat, cells: seq<Cell>, d: char, row: string, eol: string, more: string)
    requires Admitted(d) && cells != [] && forall c <- cells :: Printable(c, d)
    requires row == PrintCells(cells, d)
    requires Has(text, pos, row + (eol + more))
    requires eol == "" || eol == "\n" || eol == "\r\n"
    requires eol == "" ==> pos + |row| == |text|
    ensures var next := pos + |row| + |eol|;
            && Has(text, next, more)
            && RowFrom(text, d, pos, []) ==
               if |cells| > 1000 then TooMany else Row(Values(cells), next)
  {
    LineParts(text, pos, row, eol, more);
    RowReads(text, pos, cells, d, [], pos + |row|);
    assert [] + Values(cells) == Values(cells);
  }

  lemma LineParts(text: string, pos: nat, row: string, eol: string, more: string)
    requires Has(text, pos, row + (eol + more))
    requires eol == "" || eol == "\n" || eol == "\r\n"
    requires eol == "" ==> pos + |row| == |text|
    ensures var end := pos + |row|;
            && Has(text, pos, row) && Has(text, end + |eol|, more)
            && AtLineEnd(text, end) && LineEnd(text, end, false) == end + |eol|
  {
    HasParts(text, pos, row, eol + more);
    HasParts(text, pos + |row|, eol, more);
    LineEndReads(text, pos + |row|, eol);
  }

  lemma LineEndReads(text: string, pos: nat, eol: string)
    requires Has(text, pos, eol)
    requires eol == "" || eol == "\n" || eol == "\r\n"
    requires eol == "" ==> pos == |text|
    ensures AtLineEnd(text, pos) && LineEnd(text, pos, false) == pos + |eol|
  {
    if eol != "" {
      HasElement(text, pos, eol, 0);
      HasElement(text, pos, eol, |eol| - 1);
    }
  }

  lemma EmptyPrint(cells: seq<Cell>, d: char)
    requires cells != [] && PrintCells(cells, d) == ""
    ensures |cells| == 1 && cells[0].value == ""
  {
  }

  /**
    * CSV round trip: every table, printed with any choice of optional quotes, of LF or CRLF
    * on each line and with or without the last line ending, parses to its rows without those
    * that are one empty field; a row of more than 1000 fields raises the field-limit error.
    */
  lemma RoundTrip(lines: seq<Line>, d: char, terminated: bool)
    requires Admitted(d) && PrintableLines(lines, d)
    ensures ParsedRows(PrintTable(lines, d, terminated), d) == Expected(lines, [])
  {
    var text := PrintTable(lines, d, terminated);
    assert text[0..|text|] == text;
    TableReads(text, 0, lines, d, terminated, []);
  }

  function RowsOf(lines: seq<Line>): (rows: seq<seq<string>>)
    ensures |rows| == |lines|
  {
    seq(|lines|, i requires 0 <= i < |lines| => Values(lines[i].cells))
  }

  /** The rows that are not one empty field. */
  function NonBlank(rows: seq<seq<string>>): seq<seq<string>> {
    if rows == [] then [] else (if rows[0] == [""] then [] else [rows[0]]) + NonBlank(rows[1..])
  }

  /**
    * The parser gives back exactly the table if and only if no row is one empty field and none is too wide;
    * if none is too wide it gives back the rows that are not one empty field.
    */
  lemma RoundTripExact(lines: seq<Line>, d: char, terminated: bool)
    requires Admitted(d) && PrintableLines(lines, d)
    ensures ParsedRows(PrintTable(lines, d, terminated), d) == Ok(RowsOf(lines)) <==>
            forall l <- lines :: |l.cells| <= 1000 && Values(l.cells) != [""]
    ensures ParsedRows(PrintTable(lines, d, terminated), d) == TooManyFields <==>
            exists l <- lines :: |l.cells| > 1000
    ensures (forall l <- lines :: |l.cells| <= 1000) ==>
              ParsedRows(PrintTable(lines, d, terminated), d) == Ok(NonBlank(RowsOf(lines)))
  {
    RoundTrip(lines, d, terminated);
    ExpectedRows(lines, []);
    ExpectedNonBlank(lines, []);
    assert [] + RowsOf(lines) == RowsOf(lines);
    assert [] + NonBlank(RowsOf(lines)) == NonBlank(RowsOf(lines));
  }

  /** A quote that is not closed: the field goes on to the end of the text. */
  lemma {:induction false} UnclosedReads(text: string, pos: nat, v: string, acc: string)
    requires Has(text, pos, DoubleQuotes(v)) && pos + |DoubleQuotes(v)| == |text|
    ensures Quoted(text, pos, acc) == (acc + v, |text|)
    decreases |v|
  {
    if v == "" {
      assert acc + v == acc;
    } else {
      var one := if v[0] == '"' then "\"\"" else [v[0]];
      HasParts(text, pos, one, DoubleQuotes(v[1..]));
      HasElement(text, pos, one, 0);
      HasElement(text, pos, one, |one| - 1);
      UnclosedReads(text, pos + |one|, v[1..], acc + [v[0]]);
      assert acc + [v[0]] + v[1..] == acc + v;
    }
  }

  lemma UnclosedRow(v: string, d: char)
    ensures RowFrom("\"" + DoubleQuotes(v), d, 0, []) == Row([v], 1 + |DoubleQuotes(v)|)
  {
    var text := "\"" + DoubleQuotes(v);
    HasParts(text, 0, "\"", DoubleQuotes(v));
    UnclosedReads(text, 1, v, "");
    assert "" + v == v && [] + [v] == [v];
  }

  /**
    * Behind a closing quote anything but the delimiter or a line ending ends the row where it stands,
    * a lone CR too, so that it begins the next row.
    */
  lemma JunkEndsRow(text: string, pos: nat, v: string, d: char, end: nat)
    requires Has(text, pos, PrintCell(Cell(v, true))) && end == pos + |PrintCell(Cell(v, true))| < |text|
    requires text[end] != d && text[end] != '"' && text[end] != '\n' && !("\r\n" <= text[end..])
    ensures RowFrom(text, d, pos, []) == Row([v], end)
  {
    var body := DoubleQuotes(v) + "\"";
    assert PrintCell(Cell(v, true)) == "\"" + body;
    HasParts(text, pos, "\"", body);
    HasElement(text, pos, "\"", 0);
    QuotedReads(text, pos + 1, v, "");
    assert "" + v == v && [] + [v] == [v];
    RowStep(text, d, pos, [], v, end);
    StaysAt(text, end);
  }

  lemma StaysAt(text: string, end: nat)
    requires end < |text| && text[end] != '\n' && !("\r\n" <= text[end..])
    ensures LineEnd(text, end, true) == end
  {
    var rest := text[end..];
    assert text[end] == rest[0] && (end + 1 < |text| ==> text[end + 1] == rest[1]);
  }

  /** A row that is one quoted empty field is lost. */
  lemma QuotedBlankIsLost()
    ensures ParsedRows("\"\"", ',') == Ok([])
  {
    var text := "\"\"";
    assert Quoted(text, 1, "") == ("", 2);
    assert RowFrom(text, ',', 0, []) == Row([""], 2);
  }

  lemma {:induction false} ExpectedNonBlank(lines: seq<Line>, rows: seq<seq<string>>)
    ensures Expected(lines, rows).Ok? ==> Expected(lines, rows) == Ok(rows + NonBlank(RowsOf(lines)))
    decreases |lines|
  {
    if lines == [] {
      assert rows + NonBlank(RowsOf(lines)) == rows;
    } else if |lines[0].cells| <= 1000 {
      var vs := Values(lines[0].cells);
      ExpectedNonBlank(lines[1..], Keep(rows, vs));
      assert RowsOf(lines)[0] == vs && RowsOf(lines)[1..] == RowsOf(lines[1..]);
      AppendOne(rows, vs, NonBlank(RowsOf(lines[1..])));
    }
  }

  lemma {:induction false} ExpectedRows(lines: seq<Line>, rows: seq<seq<string>>)
    ensures Expected(lines, rows).TooManyFields? <==> exists l <- lines :: |l.cells| > 1000
    ensures Expected(lines, rows).Ok? ==> |Expected(lines, rows).rows| <= |rows| + |lines|
    ensures Expected(lines, rows).Ok? ==>
              (Expected(lines, rows).rows == rows + RowsOf(lines) <==> forall l <- lines :: Values(l.cells) != [""])
    ensures Expected(lines, rows).Ok? && (exists l <- lines :: Values(l.cells) == [""]) ==>
              |Expected(lines, rows).rows| < |rows| + |lines|
    decreases |lines|
  {
    if lines == [] {
      assert rows + RowsOf(lines) == rows;
    } else if |lines[0].cells| > 1000 {
    } else {
      var vs := Values(lines[0].cells);
      ExpectedRows(lines[1..], Keep(rows, vs));
      assert RowsOf(lines) == [vs] + RowsOf(lines[1..]);
      assert rows + RowsOf(lines) == rows + [vs] + RowsOf(lines[1..]);
      assert forall l :: l in lines <==> l == lines[0] || l in lines[1..];
    }
  }

  // ---- Text without quotes

  /** Split at every CR and every LF. */
  function LinesOf(text: string): (lines: seq<string>)
    ensures |lines| >= 1
  {
    if text == "" then [""]
    else
      var rest := LinesOf(text[1..]);
      if text[0] == '\n' || text[0] == '\r' then [""] + rest else [[text[0]] + rest[0]] + rest[1..]
  }

  /** Drop the empty lines and split each of the others at the delimiter. */
  function SplitLines(lines: seq<string>, d: char, rows: seq<seq<string>>): Table {
    if lines == [] then Ok(rows)
    else if lines[0] == "" then SplitLines(lines[1..], d, rows)
    else if |SplitOn(lines[0], d)| > 1000 then TooManyFields
    else SplitLines(lines[1..], d, rows + [SplitOn(lines[0], d)])
  }

  /** The position of the first line break at or behind pos, or the end of the text. */
  function LineBreak(text: string, pos: nat): (end: nat)
    requires pos <= |text|
    ensures pos <= end <= |text|
    ensures end < |text| ==> text[end] == '\n' || text[end] == '\r'
    ensures forall i | pos <= i < end :: text[i] != '\n' && text[i] != '\r'
    decreases |text| - pos
  {
    if pos == |text| || text[pos] == '\n' || text[pos] == '\r' then pos else LineBreak(text, pos + 1)
  }

  /** The lines behind the line break at end. */
  function LinesBehind(text: string, end: nat): seq<string>
    requires end <= |text|
  {
    if end == |text| then [] else LinesOf(text[end + 1..])
  }

  lemma {:induction false} FirstLine(text: string, pos: nat)
    requires pos <= |text|
    ensures var end := LineBreak(text, pos);
            LinesOf(text[pos..]) == [text[pos..end]] + LinesBehind(text, end)
    decreases |text| - pos
  {
    var end := LineBreak(text, pos);
    if pos < end {
      FirstLine(text, pos + 1);
      assert text[pos..] == [text[pos]] + text[pos + 1..];
      LineGrows(text[pos], text[pos + 1..], text[pos + 1..end], LinesBehind(text, end));
      assert [text[pos]] + text[pos + 1..end] == text[pos..end];
    } else {
      assert text[pos..end] == "";
      assert pos < |text| ==> text[pos..][1..] == text[pos + 1..];
    }
  }

  lemma LineGrows(c: char, tail: string, line: string, more: seq<string>)
    requires c != '\n' && c != '\r' && LinesOf(tail) == [line] + more
    ensures LinesOf([c] + tail) == [[c] + line] + more
  {
    assert ([c] + tail)[1..] == tail;
  }

  /** On a line without quotes, a row is the line split at the delimiter. */
  lemma {:induction false} UnquotedRow(text: string, d: char, pos: nat, fields: seq<string>)
    requires Admitted(d) && pos <= |text| && '"' !in text
    ensures var end := LineBreak(text, pos);
            var parts := SplitOn(text[pos..end], d);
            RowFrom(text, d, pos, fields) ==
            if |fields| + |parts| > 1000 then TooMany
            else Row(fields + parts, LineEnd(text, end, false))
    decreases |text| - pos
  {
    var end := LineBreak(text, pos);
    if |fields| >= 1000 {
    } else if pos == |text| {
      assert text[pos..end] == "";
    } else {
      var stop := BareEnd(text, d, pos);
      UnquotedField(text, d, pos, end, stop, fields);
      if stop < end {
        var more := text[stop + 1..end];
        LineBreakFrom(text, pos, stop + 1);
        UnquotedRow(text, d, stop + 1, fields + [text[pos..stop]]);
        AppendOne(fields, text[pos..stop], SplitOn(more, d));
      }
    }
  }

  /** The first field of what is left of the line between pos and end. */
  lemma UnquotedField(text: string, d: char, pos: nat, end: nat, stop: nat, fields: seq<string>)
    requires Admitted(d) && pos < |text| && '"' !in text && |fields| < 1000
    requires end == LineBreak(text, pos) && stop == BareEnd(text, d, pos)
    ensures stop <= end
    ensures stop < end ==>
              && RowFrom(text, d, pos, fields) == RowFrom(text, d, stop + 1, fields + [text[pos..stop]])
              && SplitOn(text[pos..end], d) == [text[pos..stop]] + SplitOn(text[stop + 1..end], d)
    ensures stop == end ==>
              && RowFrom(text, d, pos, fields) == Row(fields + [text[pos..end]], LineEnd(text, end, false))
              && SplitOn(text[pos..end], d) == [text[pos..end]]
  {
    BareStopsFirst(text, d, pos);
    var v := text[pos..stop];
    assert text[pos] in text;
    RowStep(text, d, pos, fields, v, stop);
    if stop < end {
      assert text[pos..end] == v + [d] + text[stop + 1..end];
      SplitFirst(v, text[stop + 1..end], d);
    } else {
      SplitNone(v, d);
    }
  }

  lemma {:induction false} BareStopsFirst(text: string, d: char, pos: nat)
    requires Admitted(d) && pos <= |text|
    ensures var stop := BareEnd(text, d, pos);
            && d !in text[pos..stop]
            && stop <= LineBreak(text, pos)
            && (stop < |text| && text[stop] == d ==> stop < LineBreak(text, pos))
            && (!(stop < |text| && text[stop] == d) ==> stop == LineBreak(text, pos))
    decreases |text| - pos
  {
    if pos < |text| && !Stops(text[pos], d) {
      BareStopsFirst(text, d, pos + 1);
      var stop := BareEnd(text, d, pos);
      assert text[pos..stop] == [text[pos]] + text[pos + 1..stop];
    }
  }

  lemma {:induction false} LineBreakFrom(text: string, pos: nat, later: nat)
    requires pos <= |text| && pos <= later <= LineBreak(text, pos)
    ensures LineBreak(text, later) == LineBreak(text, pos)
    decreases later - pos
  {
    if pos == later {
    } else {
      LineBreakFrom(text, pos + 1, later);
    }
  }

  lemma {:induction false} UnquotedRows(text: string, d: char, pos: nat, rows: seq<seq<string>>)
    requires Admitted(d) && pos <= |text| && '"' !in text
    ensures RowsFrom(text, d, pos, rows) == SplitLines(LinesOf(text[pos..]), d, rows)
    decreases |text| - pos
  {
    if pos == |text| {
      assert LinesOf(text[pos..]) == [""];
    } else {
      var end := LineBreak(text, pos);
      var line := text[pos..end];
      var parts := SplitOn(line, d);
      var next := LineEnd(text, end, false);
      FirstLine(text, pos);
      UnquotedRow(text, d, pos, []);
      assert [] + parts == parts;
      RowsStep(text, d, pos, rows, parts, next);
      SplitOneLine(line, LinesBehind(text, end), d, rows);
      if |parts| <= 1000 {
        UnquotedRows(text, d, next, Keep(rows, parts));
        AfterLine(text, d, end, Keep(rows, parts));
      }
    }
  }

  /** One step of a table. */
  lemma RowsStep(text: string, d: char, pos: nat, rows: seq<seq<string>>, fields: seq<string>, next: nat)
    requires pos < |text|
    requires RowFrom(text, d, pos, []) == if |fields| > 1000 then TooMany else Row(fields, next)
    ensures if |fields| > 1000 then RowsFrom(text, d, pos, rows) == TooManyFields
            else pos < next <= |text| && RowsFrom(text, d, pos, rows) == RowsFrom(text, d, next, Keep(rows, fields))
  {
  }

  lemma SplitOneLine(line: string, more: seq<string>, d: char, rows: seq<seq<string>>)
    ensures var parts := SplitOn(line, d);
            SplitLines([line] + more, d, rows) ==
            if |parts| > 1000 then TooManyFields else SplitLines(more, d, Keep(rows, parts))
  {
    OneEmptyPart(line, d);
    assert ([line] + more)[1..] == more;
  }

  lemma OneEmptyPart(line: string, d: char)
    ensures SplitOn(line, d) == [""] <==> line == ""
  {
  }

  /** The empty line between the CR and the LF of a CRLF changes nothing. */
  lemma AfterLine(text: string, d: char, end: nat, rows: seq<seq<string>>)
    requires end <= |text| && (end < |text| ==> text[end] == '\n' || text[end] == '\r')
    ensures var next := LineEnd(text, end, false);
            SplitLines(LinesOf(text[next..]), d, rows) == SplitLines(LinesBehind(text, end), d, rows)
  {
    var next := LineEnd(text, end, false);
    if end == |text| {
      assert text[next..] == "";
    } else if next == end + 2 {
      assert text[end + 1..][1..] == text[next..];
      assert LinesOf(text[end + 1..]) == [""] + LinesOf(text[next..]);
    }
  }

  /** On text without a double quote the parser is: split into lines, drop empty lines, split each at the delimiter. */
  lemma UnquotedText(text: string, d: char)
    requires Admitted(d) && '"' !in text
    ensures ParsedRows(text, d) == SplitLines(LinesOf(text), d, [])
  {
    assert text[0..] == text;
    UnquotedRows(text, d, 0, []);
  }

  // ---- Every text

  /** Rows laid end to end from pos to end, each one starting where the one before it stopped. */
  ghost predicate Tiles(text: string, d: char, pos: nat, spans: seq<Row>, end: nat)
    decreases |spans|
  {
    if spans == [] then pos == end
    else
      && pos < |text|
      && spans[0] == RowFrom(text, d, pos, [])
      && spans[0].Row?
      && pos < spans[0].next <= |text|
      && 1 <= |spans[0].fields| <= 1000
      && Tiles(text, d, spans[0].next, spans[1..], end)
  }

  function KeepAll(rows: seq<seq<string>>, spans: seq<Row>): seq<seq<string>>
    requires forall r <- spans :: r.Row?
    decreases |spans|
  {
    if spans == [] then rows else KeepAll(Keep(rows, spans[0].fields), spans[1..])
  }

  /**
    * Totality: the rows the parser reads are non-empty spans of 1 to 1000 fields that lie end to
    * end. Either they reach the end of the text, and the table is those rows without the blank
    * ones, or they reach a row of more than 1000 fields, and the field-limit error is raised.
    */
  lemma {:induction false} EveryTextParses(text: string, d: char, pos: nat, rows: seq<seq<string>>)
    returns (spans: seq<Row>, end: nat)
    requires pos <= |text|
    ensures end <= |text| && Tiles(text, d, pos, spans, end)
    ensures forall r <- spans :: r.Row?
    ensures RowsFrom(text, d, pos, rows) == if end == |text| then Ok(KeepAll(rows, spans)) else TooManyFields
    ensures end < |text| ==> RowFrom(text, d, end, []).TooMany?
    decreases |text| - pos
  {
    spans, end := [], pos;
    if pos == |text| {
    } else {
      var row := RowFrom(text, d, pos, []);
      if row.Row? {
        var rest, stop := EveryTextParses(text, d, row.next, Keep(rows, row.fields));
        spans, end := [row] + rest, stop;
        assert spans[1..] == rest;
      }
    }
  }
}
