/** Offset paging and the high-water mark of plugins/connector-mysql/src/index.ts, with decoded cursors. */
module MySqlPaging {
  import opened Wrappers
  import opened Division
  import opened SyncJob
  import opened Text
  import MySqlQuery

  // ---- Values of the incremental column

  /** A number, or text; dates are text in ISO form. */
  datatype Value = Number(n: real) | Str(s: string)

  /** a > b in the order of the column, which holds values of one kind. */
  predicate Greater(a: Value, b: Value) {
    match a
    case Number(x) => b.Number? && x > b.n
    case Str(x) => b.Number? || TextLess(b.s, x)
  }

  lemma GreaterTotal(a: Value, b: Value)
    ensures Greater(a, b) || a == b || Greater(b, a)
    ensures !(Greater(a, b) && Greater(b, a))
  {
    if a.Str? && b.Str? {
      TextLessTotal(a.s, b.s);
    }
  }

  /** If a is at most b and b at most c then a is at most c. */
  lemma AtMostTransitive(a: Value, b: Value, c: Value)
    requires !Greater(a, b) && !Greater(b, c)
    ensures !Greater(a, c)
  {
    GreaterTotal(a, b);
    GreaterTotal(b, c);
    if a != b && b != c && a.Str? && b.Str? && c.Str? {
      TextLessTransitive(a.s, b.s, c.s);
      TextLessTotal(a.s, c.s);
    }
  }

  /** `parseFloat` of a text (None for NaN), and `String` of a number. */
  datatype Reading = Reading(parseFloat: string -> Option<real>, show: real -> string)

  /** The comparison of `findHighWaterMark`: by number for a number, by text for a text, whatever the mark so far is. */
  predicate Beats(reading: Reading, value: Value, highest: Value) {
    match value
    case Number(n) =>
      var h := if highest.Number? then Some(highest.n) else reading.parseFloat(highest.s);
      h.Some? && n > h.value
    case Str(s) => TextLess(if highest.Str? then highest.s else reading.show(highest.n), s)
  }

  // ---- Configuration and cursors

  /** A row by its primary key and its value in the incremental column, None for NULL. */
  datatype Row = Row(id: int, col: Option<Value>)

  datatype Cursor = Cursor(offset: nat, since: Option<Value>)

  /** `numbers` says of which kind the values of the incremental column are. */
  datatype Config = Config(
    database: string,
    table: string,
    incrementalColumn: Option<string>,
    primaryKeyColumn: Option<string>,
    batchSize: nat,
    numbers: bool,
    reading: Reading)

  predicate Incremental(cfg: Config) {
    cfg.incrementalColumn.Some?
  }

  predicate OfKind(cfg: Config, value: Option<Value>) {
    value.Some? ==> value.value.Number? == cfg.numbers
  }

  predicate AllOfKind(cfg: Config, rows: seq<Row>) {
    forall r <- rows :: OfKind(cfg, r.col)
  }

  // ---- The query

  datatype Param = Bound(value: Value) | Count(n: int)

  datatype Query = Query(text: string, params: seq<Param>)

  /** The column of the ORDER BY clause: the incremental one, else the primary key, else none. */
  function OrderColumn(cfg: Config): Option<string> {
    if Incremental(cfg) then cfg.incrementalColumn else cfg.primaryKeyColumn
  }

  function ClausesOf(cfg: Config, since: Option<Value>): MySqlQuery.Clauses {
    MySqlQuery.Clauses(cfg.database, cfg.table, if since.Some? then cfg.incrementalColumn else None, OrderColumn(cfg))
  }

  /** `buildTableQuery` */
  method BuildTableQuery(cfg: Config, offset: nat, since: Option<Value>) returns (query: Query)
    ensures MySqlQuery.Read(query.text) == Some(ClausesOf(cfg, since))
    ensures query.text == MySqlQuery.Text(ClausesOf(cfg, since))
    ensures query.params == ParamsOf(cfg, offset, since)
    ensures AnswersPage(cfg, offset, since, query)
  {
    ghost var c := ClausesOf(cfg, since);
    var params: seq<Param> := [];
    var text := MySqlQuery.SELECT_TEXT + MySqlQuery.Quoted(cfg.database) + "." + MySqlQuery.Quoted(cfg.table);
    var where, orderBy := "", "";
    if cfg.incrementalColumn.Some? && since.Some? {
      where := " WHERE " + (MySqlQuery.Quoted(cfg.incrementalColumn.value) + " > ?");
      params := [Bound(since.value)];
    }
    assert where == MySqlQuery.WhereText(c.where);
    text := text + where;
    if cfg.incrementalColumn.Some? {
      orderBy := " ORDER BY " + (MySqlQuery.Quoted(cfg.incrementalColumn.value) + " ASC");
    } else if cfg.primaryKeyColumn.Some? {
      orderBy := " ORDER BY " + (MySqlQuery.Quoted(cfg.primaryKeyColumn.value) + " ASC");
    }
    assert orderBy == MySqlQuery.OrderText(c.orderBy);
    text := text + orderBy;
    text := text + MySqlQuery.LIMIT_TEXT;
    params := params + [Count(cfg.batchSize), Count(offset)];
    assert params == ParamsOf(cfg, offset, since);
    MySqlQuery.TextJoins(c);
    PageIsAnswered(cfg, offset, since);
    query := Query(text, params);
  }

  /** The statement of a page word by word, and its parameters. */
  lemma PageWords(cfg: Config, offset: nat, since: Option<Value>)
    ensures MySqlQuery.Text(ClausesOf(cfg, since)) ==
            "SELECT * FROM `" + MySqlQuery.EscapeBacktickIdentifier(cfg.database) + "`.`"
            + MySqlQuery.EscapeBacktickIdentifier(cfg.table) + "`"
            + MySqlQuery.WhereWords(if since.Some? then cfg.incrementalColumn else None)
            + MySqlQuery.OrderWords(if cfg.incrementalColumn.Some? then cfg.incrementalColumn
                                    else cfg.primaryKeyColumn)
            + " LIMIT ? OFFSET ?"
    ensures ParamsOf(cfg, offset, since) ==
            if cfg.incrementalColumn.Some? && since.Some?
            then [Bound(since.value), Count(cfg.batchSize), Count(offset)]
            else [Count(cfg.batchSize), Count(offset)]
  {
    MySqlQuery.TextWords(ClausesOf(cfg, since));
  }

  /** Whatever the table holds, the database answers the query with the page. */
  ghost predicate AnswersPage(cfg: Config, offset: nat, since: Option<Value>, query: Query) {
    forall db: Database | Incremental(cfg) ==> db.column == cfg.incrementalColumn.value ::
      Answer(db, query) == PageOf(TableOf(db, cfg), cfg, offset, since)
  }

  /** The statement and its parameters have the database answer with the page. */
  lemma PageIsAnswered(cfg: Config, offset: nat, since: Option<Value>)
    ensures MySqlQuery.Read(MySqlQuery.Text(ClausesOf(cfg, since))) == Some(ClausesOf(cfg, since))
    ensures AnswersPage(cfg, offset, since,
                        Query(MySqlQuery.Text(ClausesOf(cfg, since)), ParamsOf(cfg, offset, since)))
  {
    var c, params := ClausesOf(cfg, since), ParamsOf(cfg, offset, since);
    MySqlQuery.QueryReads(c);
    forall db: Database | Incremental(cfg) ==> db.column == cfg.incrementalColumn.value
      ensures Answer(db, Query(MySqlQuery.Text(c), params)) == PageOf(TableOf(db, cfg), cfg, offset, since)
    {
      ExecutesPage(db, cfg, offset, since, params);
    }
  }

  /** The parameters of the page, in the order of the question marks. */
  function ParamsOf(cfg: Config, offset: nat, since: Option<Value>): seq<Param> {
    (if Incremental(cfg) && since.Some? then [Bound(since.value)] else []) + [Count(cfg.batchSize), Count(offset)]
  }

  lemma ExecutesPage(db: Database, cfg: Config, offset: nat, since: Option<Value>, params: seq<Param>)
    requires Incremental(cfg) ==> db.column == cfg.incrementalColumn.value
    requires params == ParamsOf(cfg, offset, since)
    ensures Execute(db, ClausesOf(cfg, since), params) == PageOf(TableOf(db, cfg), cfg, offset, since)
  {
  }

  /**
    * The database: the rows of a table in the order of a column, or as stored;
    * `column` is the one that Row.col holds.
    */
  datatype Database = Database(column: string, rows: (string, string, Option<string>) -> seq<Row>)

  /** The rows in the order in which a run reads them. */
  function TableOf(db: Database, cfg: Config): seq<Row> {
    db.rows(cfg.database, cfg.table,
            if cfg.incrementalColumn.Some? then cfg.incrementalColumn else cfg.primaryKeyColumn)
  }

  /** What the database answers: it binds the parameters in order, filters, orders, and cuts the page out. */
  function Execute(db: Database, c: MySqlQuery.Clauses, params: seq<Param>): seq<Row> {
    var table := db.rows(c.database, c.table, c.orderBy);
    if c.where.None? && |params| == 2 && params[0].Count? && params[1].Count? then
      Limit(table, params[0].n, params[1].n)
    else if c.where == Some(db.column) && |params| == 3 && params[0].Bound? && params[1].Count? && params[2].Count? then
      Limit(Above(table, Some(params[0].value)), params[1].n, params[2].n)
    else []
  }

  /** It takes the clauses from the text. */
  function Answer(db: Database, q: Query): seq<Row> {
    match MySqlQuery.Read(q.text)
    case None => []
    case Some(c) => Execute(db, c, q.params)
  }

  function Limit(rows: seq<Row>, limit: int, offset: int): seq<Row> {
    if limit < 0 || offset < 0 || offset >= |rows| then []
    else if offset + limit <= |rows| then rows[offset..offset + limit]
    else rows[offset..]
  }

  predicate IsAbove(r: Row, since: Option<Value>) {
    since.None? || (r.col.Some? && Greater(r.col.value, since.value))
  }

  /** The rows of the WHERE clause; all of them without one. */
  function Above(table: seq<Row>, since: Option<Value>): seq<Row> {
    if table == [] then []
    else Above(table[..|table| - 1], since) + (if IsAbove(table[|table| - 1], since) then [table[|table| - 1]] else [])
  }

  /** The rows that a run which started at `since` reads. */
  function RunRows(table: seq<Row>, cfg: Config, since: Option<Value>): seq<Row> {
    if Incremental(cfg) && since.Some? then Above(table, since) else table
  }

  function PageOf(table: seq<Row>, cfg: Config, offset: nat, since: Option<Value>): seq<Row> {
    Limit(RunRows(table, cfg, since), cfg.batchSize, offset)
  }

  // ---- The high-water mark

  /** What `findHighWaterMark` computes. */
  function Mark(reading: Reading, rows: seq<Row>, since: Option<Value>): Option<Value> {
    if rows == [] then since
    else
      var n := |rows| - 1;
      var highest := Mark(reading, rows[..n], since);
      if rows[n].col.Some? && (highest.None? || Beats(reading, rows[n].col.value, highest.value)) then rows[n].col
      else highest
  }

  /** The greatest in the order of the column. */
  function HighWater(rows: seq<Row>, since: Option<Value>): Option<Value> {
    if rows == [] then since
    else
      var n := |rows| - 1;
      var highest := HighWater(rows[..n], since);
      if rows[n].col.Some? && (highest.None? || Greater(rows[n].col.value, highest.value)) then rows[n].col
      else highest
  }

  /** On a column of one kind the code's comparison is the order of the column. */
  lemma {:induction false} MarkIsHighWater(cfg: Config, rows: seq<Row>, since: Option<Value>)
    requires AllOfKind(cfg, rows) && OfKind(cfg, since)
    ensures Mark(cfg.reading, rows, since) == HighWater(rows, since) && OfKind(cfg, HighWater(rows, since))
  {
    if rows == [] {
    } else {
      var n := |rows| - 1;
      MarkIsHighWater(cfg, rows[..n], since);
      assert rows[n] in rows;
    }
  }

  /**
    * The mark is one of the values or the previous mark, and no value is above it: as numbers if the column
    * holds numbers, and else as text, by the first different character.
    */
  lemma MarkIsGreatest(cfg: Config, rows: seq<Row>, since: Option<Value>)
    requires AllOfKind(cfg, rows) && OfKind(cfg, since)
    ensures var mark := Mark(cfg.reading, rows, since);
            && (mark.None? <==> since.None? && forall r <- rows :: r.col.None?)
            && (mark == since || exists r <- rows :: r.col == mark)
            && forall r <- rows | r.col.Some? ::
                 && mark.Some? && (cfg.numbers ==> r.col.value.n <= mark.value.n)
                 && (!cfg.numbers ==> r.col.value.s == mark.value.s || Precedes(r.col.value.s, mark.value.s))
  {
    MarkIsHighWater(cfg, rows, since);
    HighWaterIsGreatest(rows, since);
    var mark := HighWater(rows, since);
    forall r <- rows | r.col.Some?
      ensures mark.Some?
      ensures cfg.numbers ==> r.col.value.n <= mark.value.n
      ensures !cfg.numbers ==> r.col.value.s == mark.value.s || Precedes(r.col.value.s, mark.value.s)
    {
      assert OfKind(cfg, r.col) && !Greater(r.col.value, mark.value);
      if !cfg.numbers {
        TextLessTotal(r.col.value.s, mark.value.s);
        TextLessPrecedes(r.col.value.s, mark.value.s);
      }
    }
  }

  /** On a column of both kinds: a number is compared with the number that the mark reads as, a text with its text. */
  lemma MixedMark(reading: Reading, text: string, n: real)
    ensures Mark(reading, [Row(1, Some(Number(n)))], Some(Str(text))) ==
            if reading.parseFloat(text).Some? && reading.parseFloat(text).value < n
            then Some(Number(n)) else Some(Str(text))
    ensures Mark(reading, [Row(1, Some(Str(text)))], Some(Number(n))) ==
            if Precedes(reading.show(n), text) then Some(Str(text)) else Some(Number(n))
  {
    TextLessPrecedes(reading.show(n), text);
    assert [Row(1, Some(Number(n)))][..0] == [] && [Row(1, Some(Str(text)))][..0] == [];
  }

  /** So text that is no number stops all numbers. */
  lemma TextStopsNumbers(reading: Reading, text: string, n: real)
    requires reading.parseFloat(text).None?
    ensures Mark(reading, [Row(1, Some(Number(n)))], Some(Str(text))) == Some(Str(text))
  {
    assert [Row(1, Some(Number(n)))][..0] == [];
  }

  /** h is the greatest of the previous mark and the values of the rows. */
  ghost predicate IsHighWater(rows: seq<Row>, since: Option<Value>, h: Option<Value>) {
    && (h.None? ==> since.None? && forall r <- rows :: r.col.None?)
    && (h.Some? ==>
          && (h == since || exists r <- rows :: r.col == h)
          && (since.Some? ==> !Greater(since.value, h.value))
          && (forall r <- rows | r.col.Some? :: !Greater(r.col.value, h.value)))
  }

  lemma {:induction false} HighWaterIsGreatest(rows: seq<Row>, since: Option<Value>)
    ensures IsHighWater(rows, since, HighWater(rows, since))
  {
    if rows == [] {
      if since.Some? {
        GreaterTotal(since.value, since.value);
      }
    } else {
      var n := |rows| - 1;
      HighWaterIsGreatest(rows[..n], since);
      StillHighest(rows, since, HighWater(rows[..n], since));
    }
  }

  /** One row more. */
  lemma StillHighest(rows: seq<Row>, since: Option<Value>, h: Option<Value>)
    requires rows != [] && IsHighWater(rows[..|rows| - 1], since, h)
    ensures var last := rows[|rows| - 1].col;
            IsHighWater(rows, since, if last.Some? && (h.None? || Greater(last.value, h.value)) then last else h)
  {
    var n := |rows| - 1;
    var last := rows[n].col;
    assert forall r :: r in rows <==> r in rows[..n] || r == rows[n];
    if last.Some? && (h.None? || Greater(last.value, h.value)) {
      GreaterTotal(last.value, last.value);
      forall v: Value | h.Some? && !Greater(v, h.value)
        ensures !Greater(v, last.value)
      {
        GreaterTotal(h.value, last.value);
        AtMostTransitive(v, h.value, last.value);
      }
    }
  }

  /** A mark that no row has a value beside is still the mark. */
  lemma MarkStays(rows: seq<Row>, since: Option<Value>)
    requires forall r <- rows :: r.col.None?
    ensures HighWater(rows, since) == since
  {
    HighWaterIsGreatest(rows, since);
    if since.Some? {
      GreaterTotal(since.value, since.value);
      GreatestIsUnique(rows, since, since, HighWater(rows, since));
    }
  }

  lemma GreatestIsUnique(rows: seq<Row>, since: Option<Value>, h: Option<Value>, h': Option<Value>)
    requires IsHighWater(rows, since, h) && IsHighWater(rows, since, h')
    ensures h == h'
  {
    if h.Some? && h'.Some? {
      GreaterTotal(h.value, h'.value);
    }
  }

  /** `findHighWaterMark` */
  method FindHighWaterMark(reading: Reading, rows: seq<Row>, previousSince: Option<Value>)
    returns (highest: Option<Value>)
    ensures highest == Mark(reading, rows, previousSince)
    ensures forall cfg: Config | cfg.reading == reading && AllOfKind(cfg, rows) && OfKind(cfg, previousSince) ::
              IsHighWater(rows, previousSince, highest)
  {
    highest := previousSince;
    for i := 0 to |rows|
      invariant highest == Mark(reading, rows[..i], previousSince)
    {
      var value := rows[i].col;
      assert rows[..i + 1][..i] == rows[..i];
      if value.None? {
        continue;
      }
      if value.value.Number? {
        var numericHighest := if highest.None? then None
                              else if highest.value.Number? then Some(highest.value.n)
                              else reading.parseFloat(highest.value.s);
        if highest.None? || (numericHighest.Some? && value.value.n > numericHighest.value) {
          highest := value;
        }
      } else {
        if highest.None? ||
           TextLess(if highest.value.Str? then highest.value.s else reading.show(highest.value.n), value.value.s) {
          highest := value;
        }
      }
    }
    assert rows[..|rows|] == rows;
    forall cfg: Config | cfg.reading == reading && AllOfKind(cfg, rows) && OfKind(cfg, previousSince)
      ensures IsHighWater(rows, previousSince, highest)
    {
      MarkIsHighWater(cfg, rows, previousSince);
      HighWaterIsGreatest(rows, previousSince);
    }
  }

  // ---- One page

  function Decoded(cursor: Option<Cursor>): Cursor {
    if cursor.Some? then cursor.value else Cursor(0, None)
  }

  function FinalSince(rows: seq<Row>, cfg: Config, since: Option<Value>): Option<Value> {
    if Incremental(cfg) then Mark(cfg.reading, rows, since) else since
  }

  function BatchOf(rows: seq<Row>, cfg: Config, cursor: Option<Cursor>): Batch<Cursor, Row> {
    var Cursor(offset, since) := Decoded(cursor);
    if |rows| < cfg.batchSize then
      var final := FinalSince(rows, cfg, since);
      Batch(rows, if final.Some? then Some(Cursor(0, final)) else None, false)
    else Batch(rows, Some(Cursor(offset + |rows|, since)), true)
  }

  /** The cursor computation of `fetchBatch`. */
  method FetchBatch(rows: seq<Row>, cfg: Config, cursor: Option<Cursor>) returns (batch: Batch<Cursor, Row>)
    ensures batch == BatchOf(rows, cfg, cursor)
    ensures batch.records == rows && batch.hasMore == (|rows| >= cfg.batchSize)
    ensures batch.hasMore && cursor.None? ==> batch.nextCursor == Some(Cursor(|rows|, None))
    ensures batch.hasMore && cursor.Some? ==>
              batch.nextCursor == Some(Cursor(cursor.value.offset + |rows|, cursor.value.since))
    ensures !batch.hasMore && batch.nextCursor.Some? ==> batch.nextCursor.value.offset == 0
    ensures !batch.hasMore ==>
              var since := if cursor.None? then None else cursor.value.since;
              var final := if cfg.incrementalColumn.Some? then Mark(cfg.reading, rows, since) else since;
              (if batch.nextCursor.Some? then batch.nextCursor.value.since else None) == final
  {
    var decoded := if cursor.Some? then cursor.value else Cursor(0, None);
    var isLastPage := |rows| < cfg.batchSize;
    var nextCursor: Option<Cursor>;
    if isLastPage {
      var finalSince := decoded.since;
      if Incremental(cfg) {
        finalSince := FindHighWaterMark(cfg.reading, rows, decoded.since);
      }
      nextCursor := if finalSince.Some? then Some(Cursor(0, finalSince)) else None;
    } else {
      nextCursor := Some(Cursor(decoded.offset + |rows|, decoded.since));
    }
    batch := Batch(rows, nextCursor, !isLastPage);
  }

  function Fetched(table: seq<Row>, cfg: Config, cursor: Option<Cursor>): Batch<Cursor, Row> {
    var Cursor(offset, since) := Decoded(cursor);
    BatchOf(PageOf(table, cfg, offset, since), cfg, cursor)
  }

  // ---- One run over an unchanging table

  /** The records of a run from a cursor to its end, and the cursor that its last page returns. */
  function RunFrom(table: seq<Row>, cfg: Config, cursor: Option<Cursor>): (seq<Row>, Option<Cursor>)
    requires cfg.batchSize >= 1
    decreases |RunRows(table, cfg, Decoded(cursor).since)| - Decoded(cursor).offset
  {
    var batch := Fetched(table, cfg, cursor);
    if !batch.hasMore then (batch.records, batch.nextCursor)
    else
      var (rest, final) := RunFrom(table, cfg, batch.nextCursor);
      (batch.records + rest, final)
  }

  /** The rows of the last page of a run that has `rows` left to read. */
  function LastPage(rows: seq<Row>, batchSize: nat): seq<Row>
    requires batchSize >= 1
    decreases |rows|
  {
    if |rows| < batchSize then rows else LastPage(rows[batchSize..], batchSize)
  }

  /** The pages of a run are exactly the rows it is about, in order; its last page alone decides the next `since`. */
  lemma {:induction false} RunDelivers(table: seq<Row>, cfg: Config, cursor: Option<Cursor>)
    requires cfg.batchSize >= 1
    requires Decoded(cursor).offset <= |RunRows(table, cfg, Decoded(cursor).since)|
    ensures var Cursor(offset, since) := Decoded(cursor);
            var rows := RunRows(table, cfg, since)[offset..];
            var final := FinalSince(LastPage(rows, cfg.batchSize), cfg, since);
            RunFrom(table, cfg, cursor) == (rows, if final.Some? then Some(Cursor(0, final)) else None)
    decreases |RunRows(table, cfg, Decoded(cursor).since)| - Decoded(cursor).offset
  {
    var Cursor(offset, since) := Decoded(cursor);
    var all := RunRows(table, cfg, since);
    var batch := Fetched(table, cfg, cursor);
    if batch.hasMore {
      var next := offset + cfg.batchSize;
      assert batch.records == all[offset..next] && batch.nextCursor == Some(Cursor(next, since));
      RunDelivers(table, cfg, batch.nextCursor);
      assert all[offset..][cfg.batchSize..] == all[next..];
      assert all[offset..next] + all[next..] == all[offset..];
    } else {
      assert batch.records == all[offset..];
    }
  }

  lemma {:induction false} LastPageIsSuffix(rows: seq<Row>, batchSize: nat)
    requires batchSize >= 1
    ensures var last := LastPage(rows, batchSize);
            |last| == |rows| % batchSize && |last| <= |rows| && last == rows[|rows| - |last|..]
    decreases |rows|
  {
    if |rows| >= batchSize {
      LastPageIsSuffix(rows[batchSize..], batchSize);
      assert |rows| % batchSize == (|rows| - batchSize) % batchSize by { ModMinus(|rows|, batchSize); }
    } else {
      assert |rows| % batchSize == |rows| by { SmallMod(|rows|, batchSize); }
      assert rows[0..] == rows;
    }
  }

  // ---- Order

  predicate NotAfter(a: Option<Value>, b: Option<Value>) {
    a.None? || (b.Some? && !Greater(a.value, b.value))
  }

  /** NULLs first, then ascending, as ORDER BY ... ASC sorts. */
  ghost predicate Sorted(rows: seq<Row>) {
    forall i, j | 0 <= i < j < |rows| :: NotAfter(rows[i].col, rows[j].col)
  }

  lemma {:induction false} AboveMember(table: seq<Row>, since: Option<Value>, r: Row)
    ensures r in Above(table, since) <==> r in table && IsAbove(r, since)
  {
    if table == [] {
    } else {
      var n := |table| - 1;
      AboveMember(table[..n], since, r);
      assert table == table[..n] + [table[n]];
    }
  }

  /** In a sorted table the rows above a value are an end of the table. */
  lemma {:induction false} AboveIsSuffix(table: seq<Row>, since: Option<Value>)
    requires Sorted(table)
    ensures |Above(table, since)| <= |table|
    ensures Above(table, since) == table[|table| - |Above(table, since)|..]
  {
    if table == [] {
    } else {
      var n := |table| - 1;
      var rest := Above(table[..n], since);
      AboveIsSuffix(table[..n], since);
      if IsAbove(table[n], since) {
        SuffixGrows(table, rest);
      } else {
        NoneAbove(table, since);
      }
    }
  }

  lemma SuffixGrows(table: seq<Row>, rest: seq<Row>)
    requires |rest| < |table| && rest == table[..|table| - 1][|table| - 1 - |rest|..]
    ensures rest + [table[|table| - 1]] == table[|table| - 1 - |rest|..]
  {
  }

  /** If the last row of a sorted table is not above a value then none is. */
  lemma NoneAbove(table: seq<Row>, since: Option<Value>)
    requires Sorted(table) && table != [] && !IsAbove(table[|table| - 1], since)
    ensures Above(table[..|table| - 1], since) == []
  {
    var above := Above(table[..|table| - 1], since);
    if above != [] {
      var last := table[|table| - 1].col;
      AboveMember(table[..|table| - 1], since, above[0]);
      LastIsGreatest(table, above[0]);
      assert above[0].col.Some? && last.Some?;
      AtMostTransitive(above[0].col.value, last.value, since.value);
    }
  }

  lemma LastIsGreatest(rows: seq<Row>, r: Row)
    requires Sorted(rows) && r in rows
    ensures NotAfter(r.col, rows[|rows| - 1].col)
  {
    var i :| 0 <= i < |rows| && rows[i] == r;
    if i < |rows| - 1 {
      assert NotAfter(rows[i].col, rows[|rows| - 1].col);
    } else if r.col.Some? {
      GreaterTotal(r.col.value, r.col.value);
    }
  }

  /** In a sorted table the mark of any non-empty end of it is the mark of the whole. */
  lemma HighWaterOfSuffix(rows: seq<Row>, k: nat, since: Option<Value>)
    requires Sorted(rows) && k < |rows|
    ensures HighWater(rows[k..], since) == HighWater(rows, since)
  {
    HighWaterIsGreatest(rows[k..], since);
    HighWaterIsGreatest(rows, since);
    var last, h := rows[|rows| - 1], HighWater(rows[k..], since);
    assert last in rows && last in rows[k..];
    forall r | r in rows
      ensures r.col.Some? ==> h.Some? && !Greater(r.col.value, h.value)
    {
      LastIsGreatest(rows, r);
      if r.col.Some? {
        AtMostTransitive(r.col.value, last.col.value, h.value);
      }
    }
    assert forall r <- rows[k..] :: r in rows;
    GreatestIsUnique(rows, since, HighWater(rows[k..], since), HighWater(rows, since));
  }

  lemma SuffixSorted(rows: seq<Row>, k: nat)
    requires Sorted(rows) && k <= |rows|
    ensures Sorted(rows[k..])
  {
  }

  lemma RunRowsSorted(table: seq<Row>, cfg: Config, since: Option<Value>)
    requires Sorted(table)
    ensures Sorted(RunRows(table, cfg, since))
  {
    AboveIsSuffix(table, since);
    SuffixSorted(table, |table| - |Above(table, since)|);
  }

  lemma RunRowsOfKind(table: seq<Row>, cfg: Config, since: Option<Value>)
    requires AllOfKind(cfg, table)
    ensures AllOfKind(cfg, RunRows(table, cfg, since))
  {
    forall r <- RunRows(table, cfg, since)
      ensures OfKind(cfg, r.col)
    {
      AboveMember(table, since, r);
    }
  }

  /**
    * The last page of an incremental run over an unchanging table returns the maximum of the run as `since`
    * if and only if that page was not empty or the run brought no value at all; it is empty exactly
    * when the number of rows is a multiple of the batch size, and then `since` is unchanged.
    */
  lemma RunSince(table: seq<Row>, cfg: Config, since: Option<Value>)
    requires cfg.batchSize >= 1 && Incremental(cfg) && Sorted(table)
    requires AllOfKind(cfg, table) && OfKind(cfg, since)
    ensures var rows := RunRows(table, cfg, since);
            var next := Decoded(RunFrom(table, cfg, Some(Cursor(0, since))).1);
            && RunFrom(table, cfg, Some(Cursor(0, since))).0 == rows
            && next.offset == 0
            && (|rows| % cfg.batchSize != 0 ==> next.since == HighWater(rows, since))
            && (|rows| % cfg.batchSize == 0 ==> next.since == since)
            && (next.since == HighWater(rows, since) <==>
                |rows| % cfg.batchSize != 0 || forall r <- rows :: r.col.None?)
  {
    var rows := RunRows(table, cfg, since);
    RunDelivers(table, cfg, Some(Cursor(0, since)));
    assert rows[0..] == rows;
    LastPageIsSuffix(rows, cfg.batchSize);
    var last := LastPage(rows, cfg.batchSize);
    RunRowsSorted(table, cfg, since);
    HighWaterIsGreatest(rows, since);
    RunRowsOfKind(table, cfg, since);
    MarkIsHighWater(cfg, last, since);
    if last != [] {
      HighWaterOfSuffix(rows, |rows| - |last|, since);
    } else if r :| r in rows && r.col.Some? {
      AboveMember(table, since, r);
      assert since.Some? ==> Greater(r.col.value, since.value);
    } else {
      MarkStays(rows, since);
    }
  }

  /**
    * One row and a batch size of one: the run ends on an empty page, which returns no cursor
    * although the run has brought a value.
    */
  lemma FullLastPageForgets(cfg: Config)
    requires Incremental(cfg) && cfg.batchSize == 1 && cfg.numbers
    ensures var table := [Row(1, Some(Number(5.0)))];
            RunFrom(table, cfg, None) == (table, None) && HighWater(table, None) == Some(Number(5.0))
  {
    var table := [Row(1, Some(Number(5.0)))];
    RunDelivers(table, cfg, None);
    assert table[0..] == table;
    LastPageIsSuffix(table, 1);
    assert HighWater([], None) == None;
  }
}
