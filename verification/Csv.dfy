/** The CSV parser of plugins/connector-csv/src/index.ts: nested loops that move a cursor over the text. */
module Csv {
  import opened Wrappers

  const MAX_FIELDS_PER_ROW: nat := 1000

  // ---- What the parser computes from a position of the text

  /**
    * A quoted field of which `value` has been read: the whole value and the position behind
    * the closing quote, or the end of the text.
    */
  function Quoted(text: string, pos: nat, value: string): (r: (string, nat))
    requires pos <= |text|
    ensures pos <= r.1 <= |text|
    decreases |text| - pos
  {
    if pos == |text| then (value, pos)
    else if text[pos] == '"' then
      if pos + 1 < |text| && text[pos + 1] == '"' then Quoted(text, pos + 2, value + ['"'])
      else (value, pos + 1)
    else Quoted(text, pos + 1, value + [text[pos]])
  }

  predicate Stops(c: char, d: char) {
    c == d || c == '\n' || c == '\r'
  }

  /** The position behind an unquoted field. */
  function BareEnd(text: string, d: char, pos: nat): (end: nat)
    requires pos <= |text|
    ensures pos <= end <= |text|
    ensures end < |text| ==> Stops(text[end], d)
    decreases |text| - pos
  {
    if pos == |text| || Stops(text[pos], d) then pos else BareEnd(text, d, pos + 1)
  }

  /** The position behind the line ending at pos. A lone CR ends a row only after an unquoted field. */
  function LineEnd(text: string, pos: nat, quoted: bool): (end: nat)
    requires pos <= |text|
    ensures pos <= end <= |text|
  {
    if pos + 1 < |text| && text[pos] == '\r' && text[pos + 1] == '\n' then pos + 2
    else if pos < |text| && text[pos] == '\n' then pos + 1
    else if pos < |text| && text[pos] == '\r' && !quoted then pos + 1
    else pos
  }

  /** The value of the field at pos and the position behind it. */
  function FieldAt(text: string, d: char, pos: nat): (r: (string, nat))
    requires pos < |text|
    ensures pos <= r.1 <= |text|
    ensures r.1 == pos ==> text[pos] != '"' && Stops(text[pos], d)
  {
    if text[pos] == '"' then Quoted(text, pos + 1, "")
    else (text[pos..BareEnd(text, d, pos)], BareEnd(text, d, pos))
  }

  /** The fields of a row and the position behind it, or the field-limit error. */
  datatype Row = Row(fields: seq<string>, next: nat) | TooMany

  /** A row of which `fields` have been read. */
  function RowFrom(text: string, d: char, pos: nat, fields: seq<string>): (r: Row)
    requires pos <= |text|
    ensures r.Row? ==> |fields| < |r.fields| <= MAX_FIELDS_PER_ROW
    ensures r.Row? ==> pos <= r.next <= |text| && (pos < |text| ==> pos < r.next)
    decreases |text| - pos
  {
    if |fields| >= MAX_FIELDS_PER_ROW then TooMany
    else if pos == |text| then Row(fields + [""], pos)
    else
      var (v, end) := FieldAt(text, d, pos);
      if end < |text| && text[end] == d then RowFrom(text, d, end + 1, fields + [v])
      else Row(fields + [v], LineEnd(text, end, text[pos] == '"'))
  }

  datatype Table = Ok(rows: seq<seq<string>>) | TooManyFields

  /** A row that is one empty field is dropped. */
  function Keep(rows: seq<seq<string>>, fields: seq<string>): seq<seq<string>> {
    if fields == [""] then rows else rows + [fields]
  }

  /** A table of which `rows` have been read. */
  function RowsFrom(text: string, d: char, pos: nat, rows: seq<seq<string>>): Table
    requires pos <= |text|
    decreases |text| - pos
  {
    if pos == |text| then Ok(rows)
    else
      match RowFrom(text, d, pos, [])
      case TooMany => TooManyFields
      case Row(fields, next) => RowsFrom(text, d, next, Keep(rows, fields))
  }

  /** The rows of a text, or the field-limit error. */
  function ParsedRows(text: string, d: char): Table {
    RowsFrom(text, d, 0, [])
  }

  // ---- Headers

  datatype ParsedCsv = ParsedCsv(headers: seq<string>, rows: seq<seq<string>>)

  function Decimal(n: nat): string {
    if n < 10 then ["0123456789"[n]] else Decimal(n / 10) + ["0123456789"[n % 10]]
  }

  /** The number that a text of decimal digits stands for. */
  function DigitsValue(s: string): nat
    requires AllDigits(s)
  {
    if s == "" then 0 else 10 * DigitsValue(s[..|s| - 1]) + (s[|s| - 1] as int - '0' as int)
  }

  predicate AllDigits(s: string) {
    forall i | 0 <= i < |s| :: '0' <= s[i] <= '9'
  }

  lemma DigitAppended(s: string, k: nat)
    requires AllDigits(s) && k < 10
    ensures var c := "0123456789"[k]; AllDigits(s + [c]) && DigitsValue(s + [c]) == 10 * DigitsValue(s) + k
  {
    var c := "0123456789"[k];
    assert (s + [c])[..|s + [c]| - 1] == s;
  }

  /** The decimal text of a number: digits that stand for it, without a zero in front. */
  lemma {:induction false} DecimalReads(n: nat)
    ensures Decimal(n) != "" && AllDigits(Decimal(n))
    ensures DigitsValue(Decimal(n)) == n
    ensures Decimal(n)[0] == '0' ==> n == 0
    decreases n
  {
    if n < 10 {
      DigitAppended("", n);
      assert "" + Decimal(n) == Decimal(n);
    } else {
      DecimalReads(n / 10);
      DigitAppended(Decimal(n / 10), n % 10);
    }
  }

  function WithHeaders(rows: seq<seq<string>>, hasHeader: bool): ParsedCsv {
    if rows == [] then ParsedCsv([], [])
    else if hasHeader then ParsedCsv(rows[0], rows[1..])
    else ParsedCsv(seq(|rows[0]|, i requires 0 <= i => "col_" + Decimal(i)), rows)
  }

  /** The generated names: col_0, col_1 and so on. */
  predicate IsNumbered(headers: seq<string>, n: nat) {
    |headers| == n && forall i | 0 <= i < n :: headers[i] == "col_" + Decimal(i)
  }

  // ---- The loops

  /** `parseQuotedField` */
  method ParseQuotedField(text: string, start: nat) returns (value: string, nextPos: nat)
    requires start <= |text|
    ensures (value, nextPos) == Quoted(text, start, "")
  {
    value := "";
    var pos := start;
    while pos < |text|
      invariant start <= pos <= |text|
      invariant Quoted(text, start, "") == Quoted(text, pos, value)
    {
      if text[pos] == '"' {
        if pos + 1 < |text| && text[pos + 1] == '"' {
          value := value + ['"'];
          pos := pos + 2;
        } else {
          pos := pos + 1;
          return value, pos;
        }
      } else {
        value := value + [text[pos]];
        pos := pos + 1;
      }
    }
    nextPos := pos;
  }

  /**
    * The branches of `parseRow` that end a row: CRLF, LF, a lone CR after an unquoted field,
    * or anything else after a quoted one.
    */
  method EndOfLine(text: string, pos: nat, quoted: bool) returns (next: nat)
    requires pos <= |text|
    ensures next == LineEnd(text, pos, quoted)
    ensures text[pos..] == "" ==> next == pos
    ensures "\r\n" <= text[pos..] ==> next == pos + 2
    ensures "\n" <= text[pos..] ==> next == pos + 1
    ensures "\r" <= text[pos..] && !("\r\n" <= text[pos..]) ==> next == if quoted then pos else pos + 1
    ensures pos < |text| && text[pos] != '\r' && text[pos] != '\n' ==> next == pos
  {
    if pos + 1 < |text| && text[pos] == '\r' && text[pos + 1] == '\n' {
      next := pos + 2;
    } else if pos < |text| && text[pos] == '\n' {
      next := pos + 1;
    } else if !quoted && pos < |text| && text[pos] == '\r' {
      next := pos + 1;
    } else {
      next := pos;
    }
  }

  /** `parseRow`; TooMany where it throws. */
  method ParseRow(text: string, d: char, start: nat) returns (row: Row)
    requires start <= |text|
    ensures row == RowFrom(text, d, start, [])
  {
    var fields: seq<string> := [];
    var pos := start;
    while pos <= |text|
      invariant start <= pos <= |text|
      invariant RowFrom(text, d, start, []) == RowFrom(text, d, pos, fields)
      decreases |text| - pos
    {
      if |fields| >= MAX_FIELDS_PER_ROW {
        return TooMany;
      }
      if pos == |text| {
        fields := fields + [""];
        return Row(fields, pos);
      }
      if text[pos] == '"' {
        var value, nextPos := ParseQuotedField(text, pos + 1);
        assert FieldAt(text, d, pos) == (value, nextPos);
        fields := fields + [value];
        pos := nextPos;
        if pos < |text| && text[pos] == d {
          pos := pos + 1;
        } else {
          pos := EndOfLine(text, pos, true);
          return Row(fields, pos);
        }
      } else {
        var fieldStart := pos;
        while pos < |text| && text[pos] != d && text[pos] != '\n' && text[pos] != '\r'
          invariant fieldStart <= pos <= |text|
          invariant BareEnd(text, d, fieldStart) == BareEnd(text, d, pos)
        {
          pos := pos + 1;
        }
        assert FieldAt(text, d, fieldStart) == (text[fieldStart..pos], pos);
        fields := fields + [text[fieldStart..pos]];
        if pos >= |text| {
          return Row(fields, pos);
        } else if text[pos] == d {
          pos := pos + 1;
        } else {
          pos := EndOfLine(text, pos, false);
          return Row(fields, pos);
        }
      }
    }
    assert false;
  }

  /** `parseCSV`, None where it throws the field-limit error. */
  method ParseCSV(text: string, d: char, hasHeader: bool) returns (parsed: Option<ParsedCsv>)
    ensures match ParsedRows(text, d)
            case TooManyFields => parsed == None
            case Ok(rows) => parsed == Some(WithHeaders(rows, hasHeader))
    ensures parsed.Some? ==>
            var p, all := parsed.value, ParsedRows(text, d).rows;
            && (all == [] ==> p == ParsedCsv([], []))
            && (all != [] && hasHeader ==> [p.headers] + p.rows == all)
            && (all != [] && !hasHeader ==> p.rows == all && IsNumbered(p.headers, |all[0]|))
  {
    var rows: seq<seq<string>> := [];
    var pos := 0;
    while pos < |text|
      invariant pos <= |text|
      invariant ParsedRows(text, d) == RowsFrom(text, d, pos, rows)
    {
      var row := ParseRow(text, d, pos);
      if row.TooMany? {
        return None;
      }
      pos := row.next;
      if |row.fields| == 1 && row.fields[0] == "" {
        continue;
      }
      rows := rows + [row.fields];
    }
    if |rows| == 0 {
      return Some(ParsedCsv([], []));
    }
    if hasHeader {
      return Some(ParsedCsv(rows[0], rows[1..]));
    }
    var headers := seq(|rows[0]|, i requires 0 <= i => "col_" + Decimal(i));
    return Some(ParsedCsv(headers, rows));
  }
}
