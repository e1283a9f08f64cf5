/** Keyset and incremental paging of plugins/connector-postgres/src/index.ts, with decoded cursors. */
module PostgresPaging {
  import opened Wrappers
  import opened Division
  import opened Sequences
  import opened Text

  // ======== Keyset paging: the whole table, by primary key ========

  datatype Row<+D> = Row(pk: int, data: D)

  /** A row as the proxy sends it, where the key column may be absent. */
  datatype Sent<+D> = Sent(pk: Option<int>, data: D)

  datatype KeysetOutcome<+D> =
    | KeysetBatch(records: seq<Row<D>>, lastPkValue: Option<int>, hasMore: bool)
    | KeyAbsent    // PluginDataError of `extractSourceId`

  predicate HaveKeys<D>(rows: seq<Sent<D>>) {
    forall i | 0 <= i < |rows| :: rows[i].pk.Some?
  }

  function WithKeys<D>(rows: seq<Sent<D>>): (keyed: seq<Row<D>>)
    requires HaveKeys(rows)
    ensures |keyed| == |rows|
    ensures forall i | 0 <= i < |rows| :: rows[i].pk == Some(keyed[i].pk) && rows[i].data == keyed[i].data
  {
    seq(|rows|, i requires 0 <= i < |rows| => Row(rows[i].pk.value, rows[i].data))
  }

  /** `fetchBatchKeyset` after the proxy has answered: the records and the cursor of the next page. */
  method FetchBatchKeyset<D>(rows: seq<Sent<D>>, batchSize: nat) returns (outcome: KeysetOutcome<D>)
    ensures if HaveKeys(rows)
            then outcome == KeysetBatch(WithKeys(rows), NextKey(WithKeys(rows), batchSize), |rows| == batchSize)
            else outcome == KeyAbsent
    ensures outcome == KeyAbsent <==> exists i | 0 <= i < |rows| :: rows[i].pk.None?
    ensures outcome.KeysetBatch? ==>
              outcome.lastPkValue == if |rows| == batchSize && |rows| > 0 then rows[|rows| - 1].pk else None
  {
    var records: seq<Row<D>> := [];
    for i := 0 to |rows|
      invariant HaveKeys(rows[..i]) && records == WithKeys(rows[..i])
    {
      if rows[i].pk.None? {
        return KeyAbsent;
      }
      assert rows[..i + 1] == rows[..i] + [rows[i]];
      records := records + [Row(rows[i].pk.value, rows[i].data)];
    }
    assert rows[..|rows|] == rows;
    var hasMore := |records| == batchSize;
    var nextCursor := None;
    if hasMore && |rows| > 0 {
      var lastRow := rows[|rows| - 1];
      nextCursor := lastRow.pk;
    }
    outcome := KeysetBatch(records, nextCursor, hasMore);
  }

  function NextKey<D>(rows: seq<Row<D>>, batchSize: nat): Option<int> {
    if |rows| == batchSize && |rows| > 0 then Some(rows[|rows| - 1].pk) else None
  }

  type Table<D> = map<int, D>

  predicate Beyond(pk: int, after: Option<int>) {
    after.None? || pk > after.value
  }

  ghost predicate Ascending<D>(rows: seq<Row<D>>) {
    forall i, j | 0 <= i < j < |rows| :: rows[i].pk < rows[j].pk
  }

  /**
    * The contract of the proxy for `keyset_pk_value`: the first `limit` rows beyond the key, in
    * key order, of the table as it is at that moment.
    */
  ghost predicate AnswersKeyset<D>(table: Table<D>, after: Option<int>, limit: nat, page: seq<Row<D>>) {
    && |page| <= limit
    && Ascending(page)
    && (forall r <- page :: r.pk in table && r.data == table[r.pk] && Beyond(r.pk, after))
    && (forall pk | pk in table && Beyond(pk, after) ::
          (exists i :: 0 <= i < |page| && page[i].pk == pk) || (|page| == limit && forall r <- page :: r.pk < pk))
  }

  /** The key that page i is asked beyond, in a run that is asked to start beyond a key. */
  function KeyBefore<D>(pages: seq<seq<Row<D>>>, batchSize: nat, start: Option<int>, i: nat): Option<int>
    requires i <= |pages|
  {
    if i == 0 then start else NextKey(pages[i - 1], batchSize)
  }

  ghost predicate AnsweredAt<D>(tables: seq<Table<D>>, pages: seq<seq<Row<D>>>, batchSize: nat, start: Option<int>,
        i: nat)
    requires i < |pages| && |tables| == |pages|
  {
    AnswersKeyset(tables[i], KeyBefore(pages, batchSize, start, i), batchSize, pages[i])
  }

  /** A run whose page i was answered from tables[i]: between pages the table may change in any way. */
  ghost predicate KeysetRun<D>(tables: seq<Table<D>>, pages: seq<seq<Row<D>>>, batchSize: nat, start: Option<int>) {
    && |tables| == |pages|
    && (forall i | 0 <= i < |pages| :: AnsweredAt(tables, pages, batchSize, start, i))
    && (forall i | 0 <= i < |pages| - 1 :: |pages[i]| == batchSize)
  }

  /** A run over a proxy that answers page i from tables[i], page by page through `fetchBatchKeyset`. */
  method RunKeyset<D>(tables: seq<Table<D>>, answer: (nat, Option<int>) -> seq<Sent<D>>, batchSize: nat,
        start: Option<int>)
    returns (pages: seq<seq<Row<D>>>)
    requires forall i: nat, after | i < |tables| ::
               HaveKeys(answer(i, after)) && AnswersKeyset(tables[i], after, batchSize, WithKeys(answer(i, after)))
    ensures |pages| <= |tables| && KeysetRun(tables[..|pages|], pages, batchSize, start)
    ensures |pages| == |tables| || Ended(pages, batchSize)
  {
    pages := [];
    var key, hasMore := start, true;
    while hasMore && |pages| < |tables|
      invariant |pages| <= |tables| && KeysetRun(tables[..|pages|], pages, batchSize, start)
      invariant hasMore ==> key == KeyBefore(pages, batchSize, start, |pages|)
      invariant if hasMore then forall i | 0 <= i < |pages| :: |pages[i]| == batchSize else Ended(pages, batchSize)
      decreases |tables| - |pages|
    {
      var outcome := FetchBatchKeyset(answer(|pages|, key), batchSize);
      RunGrows(tables, pages, outcome.records, batchSize, start);
      pages := pages + [outcome.records];
      key, hasMore := outcome.lastPkValue, outcome.hasMore;
    }
  }

  lemma RunGrows<D>(tables: seq<Table<D>>, pages: seq<seq<Row<D>>>, page: seq<Row<D>>, batchSize: nat,
        start: Option<int>)
    requires |pages| < |tables| && KeysetRun(tables[..|pages|], pages, batchSize, start)
    requires forall i | 0 <= i < |pages| :: |pages[i]| == batchSize
    requires AnswersKeyset(tables[|pages|], KeyBefore(pages, batchSize, start, |pages|), batchSize, page)
    ensures KeysetRun(tables[..|pages| + 1], pages + [page], batchSize, start)
  {
    var n, more := |pages|, pages + [page];
    var front := tables[..n + 1];
    forall i | 0 <= i < |more|
      ensures AnsweredAt(front, more, batchSize, start, i)
    {
      assert i < n ==> more[i] == pages[i] && AnsweredAt(tables[..n], pages, batchSize, start, i);
      assert KeyBefore(more, batchSize, start, i) == KeyBefore(pages, batchSize, start, i);
    }
  }

  /** The run has ended: its last page says that there is no more. */
  predicate Ended<D>(pages: seq<seq<Row<D>>>, batchSize: nat) {
    pages != [] && |pages[|pages| - 1]| != batchSize
  }

  lemma RunPrefix<D>(tables: seq<Table<D>>, pages: seq<seq<Row<D>>>, batchSize: nat, start: Option<int>)
    requires KeysetRun(tables, pages, batchSize, start) && pages != []
    ensures KeysetRun(tables[..|pages| - 1], pages[..|pages| - 1], batchSize, start)
  {
    var n := |pages| - 1;
    forall i | 0 <= i < n
      ensures AnsweredAt(tables[..n], pages[..n], batchSize, start, i)
    {
      assert AnsweredAt(tables, pages, batchSize, start, i);
      assert KeyBefore(pages[..n], batchSize, start, i) == KeyBefore(pages, batchSize, start, i);
    }
  }

  lemma AscendingJoins<D>(before: seq<Row<D>>, last: seq<Row<D>>)
    requires Ascending(before) && Ascending(last)
    requires before != [] ==> forall r <- last :: before[|before| - 1].pk < r.pk
    ensures Ascending(before + last)
  {
    forall i, j | 0 <= i < |before| && 0 <= j < |last|
      ensures before[i].pk < last[j].pk
    {
      assert last[j] in last;
    }
  }

  /** Every page is ascending and starts beyond the end of the page before it. */
  ghost predicate Chained<D>(pages: seq<seq<Row<D>>>) {
    && (forall i | 0 <= i < |pages| :: Ascending(pages[i]))
    && (forall i | 0 < i < |pages| :: FollowsAt(pages, i))
  }

  ghost predicate FollowsAt<D>(pages: seq<seq<Row<D>>>, i: nat)
    requires 0 < i < |pages|
  {
    Follows(pages[i - 1], pages[i])
  }

  ghost predicate Follows<D>(page: seq<Row<D>>, next: seq<Row<D>>) {
    page != [] && forall r <- next :: page[|page| - 1].pk < r.pk
  }

  lemma RunIsChained<D>(tables: seq<Table<D>>, pages: seq<seq<Row<D>>>, batchSize: nat, start: Option<int>)
    requires batchSize >= 1 && KeysetRun(tables, pages, batchSize, start)
    ensures Chained(pages)
  {
    forall i | 0 <= i < |pages|
      ensures Ascending(pages[i]) && (i > 0 ==> FollowsAt(pages, i))
    {
      assert AnsweredAt(tables, pages, batchSize, start, i);
    }
  }

  lemma ChainPrefix<D>(pages: seq<seq<Row<D>>>)
    requires Chained(pages) && pages != []
    ensures Chained(pages[..|pages| - 1])
  {
    var n := |pages| - 1;
    forall i | 0 < i < n
      ensures FollowsAt(pages[..n], i)
    {
      assert FollowsAt(pages, i);
    }
  }

  lemma {:induction false} ChainAscends<D>(pages: seq<seq<Row<D>>>)
    requires Chained(pages)
    ensures Ascending(Concat(pages))
    ensures pages != [] && pages[|pages| - 1] != [] ==> EndsLike(Concat(pages), pages[|pages| - 1])
    decreases |pages|
  {
    if pages == [] {
    } else {
      var n := |pages| - 1;
      var before, last := Concat(pages[..n]), pages[n];
      ChainPrefix(pages);
      ChainAscends(pages[..n]);
      ConcatLast(pages);
      if n > 0 {
        assert FollowsAt(pages, n);
        assert EndsLike(before, pages[n - 1]);
      }
      AscendingJoins(before, last);
    }
  }

  /** Keys are delivered in strictly ascending order, so none is delivered twice. */
  lemma KeysetAscends<D>(tables: seq<Table<D>>, pages: seq<seq<Row<D>>>, batchSize: nat, start: Option<int>)
    requires batchSize >= 1 && KeysetRun(tables, pages, batchSize, start)
    ensures Ascending(Concat(pages))
  {
    RunIsChained(tables, pages, batchSize, start);
    ChainAscends(pages);
  }

  predicate EndsLike<D>(rows: seq<Row<D>>, page: seq<Row<D>>) {
    page != [] && rows != [] && rows[|rows| - 1].pk == page[|page| - 1].pk
  }

  /** A key that has not been passed by the pages so far is beyond the next cursor, or the run has ended without it. */
  lemma {:induction false} KeysetReaches<D>(tables: seq<Table<D>>, pages: seq<seq<Row<D>>>, batchSize: nat,
        start: Option<int>, pk: int)
    requires batchSize >= 1 && KeysetRun(tables, pages, batchSize, start) && pages != []
    requires Beyond(pk, start) && forall t <- tables :: pk in t
    ensures || (exists i, j | 0 <= i < |pages| && 0 <= j < |pages[i]| :: pages[i][j] == Row(pk, tables[i][pk]))
            || (!Ended(pages, batchSize) && Beyond(pk, NextKey(pages[|pages| - 1], batchSize)))
    decreases |pages|
  {
    var n := |pages| - 1;
    if n > 0 {
      RunPrefix(tables, pages, batchSize, start);
      KeysetReaches(tables[..n], pages[..n], batchSize, start, pk);
      if i, j :| 0 <= i < n && 0 <= j < |pages[..n][i]| && pages[..n][i][j] == Row(pk, tables[..n][i][pk]) {
        assert pages[i][j] == Row(pk, tables[i][pk]);
        return;
      }
    }
    assert Beyond(pk, KeyBefore(pages, batchSize, start, n));
    assert pk in tables[n];
    var page := pages[n];
    assert AnsweredAt(tables, pages, batchSize, start, n);
    if j :| 0 <= j < |page| && page[j].pk == pk {
      assert page[j] in page;
      assert pages[n][j] == Row(pk, tables[n][pk]);
    } else {
      assert |page| == batchSize && page[|page| - 1] in page;
    }
  }

  lemma {:induction false} InConcat<T>(pages: seq<seq<T>>, i: nat, j: nat)
    requires i < |pages| && j < |pages[i]|
    ensures exists k :: 0 <= k < |Concat(pages)| && Concat(pages)[k] == pages[i][j]
    decreases |pages|
  {
    var n := |pages| - 1;
    var before := Concat(pages[..n]);
    ConcatLast(pages);
    if i < n {
      InConcat(pages[..n], i, j);
      var k :| 0 <= k < |before| && before[k] == pages[i][j];
      assert Concat(pages)[k] == before[k];
    } else {
      assert Concat(pages)[|before| + j] == pages[i][j];
    }
  }

  /** Of all the rows only the one at k has its key. */
  ghost predicate OnlyAt<D>(rows: seq<Row<D>>, k: nat) {
    k < |rows| && forall l | 0 <= l < |rows| && l != k :: rows[l].pk != rows[k].pk
  }

  lemma AscendingOnce<D>(rows: seq<Row<D>>, k: nat)
    requires Ascending(rows) && k < |rows|
    ensures OnlyAt(rows, k)
  {
    forall l | 0 <= l < |rows| && l != k
      ensures rows[l].pk != rows[k].pk
    {
      if l < k {
        assert rows[l].pk < rows[k].pk;
      } else {
        assert rows[k].pk < rows[l].pk;
      }
    }
  }

  /**
    * When a run has ended, every row beyond its start that was there at each of its pages has been
    * delivered, exactly once, as it stood at one of them.
    */
  lemma KeysetDeliversEveryStableRow<D>(tables: seq<Table<D>>, pages: seq<seq<Row<D>>>, batchSize: nat,
        start: Option<int>, pk: int)
    returns (k: nat, i: nat)
    requires batchSize >= 1 && KeysetRun(tables, pages, batchSize, start) && Ended(pages, batchSize)
    requires Beyond(pk, start) && forall t <- tables :: pk in t
    ensures i < |tables| && pk in tables[i]
    ensures k < |Concat(pages)| && Concat(pages)[k] == Row(pk, tables[i][pk])
    ensures OnlyAt(Concat(pages), k)
  {
    KeysetReaches(tables, pages, batchSize, start, pk);
    var j;
    i, j :| i < |pages| && 0 <= j < |pages[i]| && pages[i][j] == Row(pk, tables[i][pk]);
    InConcat(pages, i, j);
    k :| k < |Concat(pages)| && Concat(pages)[k] == pages[i][j];
    assert tables[i] in tables;
    KeysetAscends(tables, pages, batchSize, start);
    AscendingOnce(Concat(pages), k);
  }

  /** The key that a run leaves stored: the one that its last page was asked beyond, if that page is not full. */
  function KeptKey<D>(pages: seq<seq<Row<D>>>, batchSize: nat, start: Option<int>): Option<int>
    requires Ended(pages, batchSize)
  {
    KeyBefore(pages, batchSize, start, |pages| - 1)
  }

  lemma {:induction false} RunIsBeyond<D>(tables: seq<Table<D>>, pages: seq<seq<Row<D>>>, batchSize: nat,
        start: Option<int>, r: Row<D>)
    requires batchSize >= 1 && KeysetRun(tables, pages, batchSize, start) && r in Concat(pages)
    ensures Beyond(r.pk, start)
    decreases |pages|
  {
    var n := |pages| - 1;
    ConcatLast(pages);
    RunPrefix(tables, pages, batchSize, start);
    if r in Concat(pages[..n]) {
      RunIsBeyond(tables[..n], pages[..n], batchSize, start, r);
    } else {
      assert AnsweredAt(tables, pages, batchSize, start, n);
      if n > 0 && start.Some? {
        var last := pages[n - 1][|pages[n - 1]| - 1];
        InConcat(pages[..n], n - 1, |pages[n - 1]| - 1);
        RunIsBeyond(tables[..n], pages[..n], batchSize, start, last);
      }
    }
  }

  /** Of what a run has delivered, the run that resumes at its stored key delivers again only rows of the last page. */
  lemma OnlyLastPageAgain<D>(tables: seq<Table<D>>, pages: seq<seq<Row<D>>>, tables': seq<Table<D>>,
        pages': seq<seq<Row<D>>>, batchSize: nat, start: Option<int>, r: Row<D>, r': Row<D>)
    requires batchSize >= 1 && KeysetRun(tables, pages, batchSize, start) && Ended(pages, batchSize)
    requires KeysetRun(tables', pages', batchSize, KeptKey(pages, batchSize, start))
    requires r in Concat(pages) && r' in Concat(pages') && r.pk == r'.pk
    ensures r in pages[|pages| - 1]
  {
    var n := |pages| - 1;
    RunIsBeyond(tables', pages', batchSize, KeptKey(pages, batchSize, start), r');
    ConcatLast(pages);
    if r in Concat(pages[..n]) {
      NotBeyondKept(tables, pages, batchSize, start, r);
    }
  }

  lemma NotBeyondKept<D>(tables: seq<Table<D>>, pages: seq<seq<Row<D>>>, batchSize: nat, start: Option<int>, r: Row<D>)
    requires batchSize >= 1 && KeysetRun(tables, pages, batchSize, start) && Ended(pages, batchSize)
    requires r in Concat(pages[..|pages| - 1])
    ensures !Beyond(r.pk, KeptKey(pages, batchSize, start))
  {
    var n := |pages| - 1;
    var before := Concat(pages[..n]);
    RunPrefix(tables, pages, batchSize, start);
    RunIsChained(tables[..n], pages[..n], batchSize, start);
    ChainAscends(pages[..n]);
    if n > 0 {
      assert |pages[n - 1]| == batchSize && pages[..n][n - 1] == pages[n - 1];
      AtMostEnd(before, pages[n - 1], r);
    }
  }

  lemma AtMostEnd<D>(rows: seq<Row<D>>, page: seq<Row<D>>, r: Row<D>)
    requires Ascending(rows) && EndsLike(rows, page) && r in rows
    ensures r.pk <= page[|page| - 1].pk
  {
    var i :| 0 <= i < |rows| && rows[i] == r;
    assert i < |rows| - 1 ==> rows[i].pk < rows[|rows| - 1].pk;
  }

  /** A run over tables whose keys come from a finite set has at most one page more than that set has full pages. */
  lemma KeysetEnds<D>(tables: seq<Table<D>>, pages: seq<seq<Row<D>>>, batchSize: nat, start: Option<int>,
        keys: set<int>)
    requires batchSize >= 1 && KeysetRun(tables, pages, batchSize, start) && pages != []
    requires forall t <- tables :: t.Keys <= keys
    ensures (|pages| - 1) * batchSize <= |keys|
  {
    var n := |pages| - 1;
    RunPrefix(tables, pages, batchSize, start);
    var full := Concat(pages[..n]);
    FullPages(pages[..n], batchSize);
    KeysetAscends(tables[..n], pages[..n], batchSize, start);
    forall r | r in full
      ensures r.pk in keys
    {
      DeliveredKeys(tables[..n], pages[..n], batchSize, start, r);
      var t :| t in tables[..n] && r.pk in t;
      assert t in tables;
    }
    AscendingFits(full, keys);
  }

  lemma {:induction false} FullPages<T>(pages: seq<seq<T>>, batchSize: nat)
    requires forall i | 0 <= i < |pages| :: |pages[i]| == batchSize
    ensures |Concat(pages)| == |pages| * batchSize
    decreases |pages|
  {
    if pages == [] {
    } else {
      FullPages(pages[..|pages| - 1], batchSize);
      ConcatLast(pages);
      assert |pages| * batchSize == (|pages| - 1) * batchSize + batchSize;
    }
  }

  lemma {:induction false} DeliveredKeys<D>(tables: seq<Table<D>>, pages: seq<seq<Row<D>>>, batchSize: nat,
        start: Option<int>, r: Row<D>)
    requires KeysetRun(tables, pages, batchSize, start) && r in Concat(pages)
    ensures exists t <- tables :: r.pk in t
    decreases |pages|
  {
    var n := |pages| - 1;
    ConcatLast(pages);
    if r in pages[n] {
      assert AnsweredAt(tables, pages, batchSize, start, n);
      assert tables[n] in tables;
    } else {
      RunPrefix(tables, pages, batchSize, start);
      DeliveredKeys(tables[..n], pages[..n], batchSize, start, r);
      var t :| t in tables[..n] && r.pk in t;
      assert t in tables;
    }
  }

  lemma {:induction false} AscendingFits<D>(rows: seq<Row<D>>, keys: set<int>)
    requires Ascending(rows) && forall r <- rows :: r.pk in keys
    ensures |rows| <= |keys|
    decreases |rows|
  {
    if rows == [] {
    } else {
      var n := |rows| - 1;
      assert rows[n] in rows;
      forall r | r in rows[..n]
        ensures r.pk in keys - {rows[n].pk}
      {
        assert r in rows;
      }
      AscendingFits(rows[..n], keys - {rows[n].pk});
    }
  }

  // ======== Incremental paging: by a column, then by primary key ========

  /** A primary key: its text, and what `Number` makes of the text (None for NaN). */
  datatype Key = Key(text: string, number: Option<real>)

  /** `pkVal <= lastId`, by number if both are numbers and else as text. */
  predicate KeyAtMost(a: Key, b: Key) {
    if a.number.Some? && b.number.Some? then a.number.value <= b.number.value else TextAtMost(a.text, b.text)
  }

  /** A row by its value in the incremental column and its key; either may be absent. */
  datatype Item = Item(col: Option<int>, pk: Option<Key>)

  /** lastValue is None for the empty string; the key with the empty text stands for no `lastId`. */
  datatype Cursor = Cursor(lastValue: Option<int>, lastId: Key)

  datatype IncrementalOutcome =
    | IncrementalBatch(records: seq<Item>, nextCursor: Option<Cursor>, hasMore: bool)
    | NoKey       // PluginDataError: a record without the key column
    | NoColumn    // PluginDataError: the last record without the incremental column

  const NO_KEY := Key("", Some(0.0))

  /** `String(row[primaryKey] ?? "")` */
  function KeyOf(r: Item): Key {
    if r.pk.Some? then r.pk.value else NO_KEY
  }

  /** A row that the previous page delivered already, as the client-side filter sees it. */
  predicate Seen(r: Item, lastValue: Option<int>, lastId: Key) {
    r.col == lastValue && KeyAtMost(KeyOf(r), lastId)
  }

  function Unseen(rows: seq<Item>, lastValue: Option<int>, lastId: Key): seq<Item> {
    if rows == [] then []
    else (if Seen(rows[0], lastValue, lastId) then [] else [rows[0]]) + Unseen(rows[1..], lastValue, lastId)
  }

  function Filtered(rows: seq<Item>, cursor: Option<Cursor>): seq<Item> {
    if cursor.Some? && cursor.value.lastId.text != "" then Unseen(rows, cursor.value.lastValue, cursor.value.lastId)
    else rows
  }

  function Position(r: Item): Cursor {
    Cursor(r.col, KeyOf(r))
  }

  /** The position of a row that was filtered out, `colValue ?? lastValue ?? ""`. */
  function RawPosition(r: Item, cursor: Option<Cursor>): Cursor {
    Cursor(if r.col.Some? then r.col else if cursor.Some? then cursor.value.lastValue else None, KeyOf(r))
  }

  function BatchOf(rows: seq<Item>, cursor: Option<Cursor>, batchSize: nat): IncrementalOutcome {
    var filtered := Filtered(rows, cursor);
    var hasMore := |rows| == batchSize;
    if exists r <- filtered :: r.pk.None? then NoKey
    else if filtered != [] then
      var last := filtered[|filtered| - 1];
      if last.col.None? then NoColumn else IncrementalBatch(filtered, Some(Position(last)), hasMore)
    else if hasMore && rows != [] then IncrementalBatch([], Some(RawPosition(rows[|rows| - 1], cursor)), hasMore)
    else IncrementalBatch([], None, hasMore)
  }

  /** What is returned when the filter leaves these of the rows. */
  predicate Returns(rows: seq<Item>, filtered: seq<Item>, cursor: Option<Cursor>, batchSize: nat,
        outcome: IncrementalOutcome)
  {
    if exists i | 0 <= i < |filtered| :: filtered[i].pk.None? then outcome == NoKey
    else if filtered != [] then
      var last := filtered[|filtered| - 1];
      if last.col.None? then outcome == NoColumn
      else outcome == IncrementalBatch(filtered, Some(Cursor(last.col, last.pk.value)), |rows| == batchSize)
    else if rows != [] && |rows| == batchSize then
      var last := rows[|rows| - 1];
      var col := if last.col.Some? then last.col else if cursor.Some? then cursor.value.lastValue else None;
      var pk := if last.pk.Some? then last.pk.value else Key("", Some(0.0));
      outcome == IncrementalBatch([], Some(Cursor(col, pk)), true)
    else outcome == IncrementalBatch([], None, |rows| == batchSize)
  }

  /** a is at most b: by number if both are numbers, else the texts are equal or a's comes first. */
  ghost predicate NotBehind(a: Key, b: Key) {
    if a.number.Some? && b.number.Some? then a.number.value <= b.number.value
    else a.text == b.text || Precedes(a.text, b.text)
  }

  /** The row has the column value of the cursor and a key that is not behind its key; an absent key counts as "". */
  ghost predicate Repeated(r: Item, c: Cursor) {
    r.col == c.lastValue && NotBehind(if r.pk.Some? then r.pk.value else Key("", Some(0.0)), c.lastId)
  }

  lemma SeenIsRepeated(r: Item, c: Cursor)
    ensures Seen(r, c.lastValue, c.lastId) <==> Repeated(r, c)
  {
    TextLessPrecedes(KeyOf(r).text, c.lastId.text);
  }

  /** Wherever a row stands, the filter takes out that row if and only if it is repeated. */
  lemma FilterExactly(before: seq<Item>, r: Item, after: seq<Item>, c: Cursor)
    ensures var cursor := Some(c);
            var here := if c.lastId.text != "" && Repeated(r, c) then [] else [r];
            Filtered(before + [r] + after, cursor) == Filtered(before, cursor) + here + Filtered(after, cursor)
    ensures Filtered([], Some(c)) == [] && Filtered(before, None) == before
  {
    if c.lastId.text != "" {
      UnseenAround(before, r, after, c);
    }
  }

  lemma UnseenAround(before: seq<Item>, r: Item, after: seq<Item>, c: Cursor)
    ensures Unseen(before + [r] + after, c.lastValue, c.lastId) ==
            Unseen(before, c.lastValue, c.lastId) + (if Repeated(r, c) then [] else [r])
            + Unseen(after, c.lastValue, c.lastId)
  {
    UnseenJoins(before + [r], after, c);
    UnseenJoins(before, [r], c);
    UnseenOne(r, c);
  }

  lemma UnseenOne(r: Item, c: Cursor)
    ensures Unseen([r], c.lastValue, c.lastId) == if Repeated(r, c) then [] else [r]
  {
    SeenIsRepeated(r, c);
    assert [r][1..] == [];
  }

  lemma {:induction false} UnseenJoins(a: seq<Item>, b: seq<Item>, c: Cursor)
    ensures Unseen(a + b, c.lastValue, c.lastId) == Unseen(a, c.lastValue, c.lastId) + Unseen(b, c.lastValue, c.lastId)
  {
    if a == [] {
      assert a + b == b;
    } else {
      UnseenJoins(a[1..], b, c);
      assert (a + b)[1..] == a[1..] + b;
    }
  }

  /** `fetchBatchIncremental` after the proxy has answered. */
  method FetchBatchIncremental(rows: seq<Item>, cursor: Option<Cursor>, batchSize: nat)
    returns (outcome: IncrementalOutcome)
    ensures outcome == BatchOf(rows, cursor, batchSize)
    ensures Returns(rows, Filtered(rows, cursor), cursor, batchSize, outcome)
  {
    var filteredRows := rows;
    if cursor.Some? && cursor.value.lastId.text != "" {
      filteredRows := Unseen(rows, cursor.value.lastValue, cursor.value.lastId);
    }
    for i := 0 to |filteredRows|
      invariant forall j | 0 <= j < i :: filteredRows[j].pk.Some?
    {
      if filteredRows[i].pk.None? {
        assert filteredRows[i] in filteredRows;
        return NoKey;
      }
    }
    var records := filteredRows;
    var hasMore := |rows| == batchSize;
    var nextCursor: Option<Cursor> := None;
    if |records| > 0 {
      var lastFilteredRow := filteredRows[|filteredRows| - 1];
      if lastFilteredRow.col.None? {
        return NoColumn;
      }
      nextCursor := Some(Position(lastFilteredRow));
    } else if hasMore {
      if |rows| > 0 {
        var lastRawRow := rows[|rows| - 1];
        nextCursor := Some(RawPosition(lastRawRow, cursor));
      }
    }
    outcome := IncrementalBatch(records, nextCursor, hasMore);
  }

  // ---- The proxy

  predicate Complete(r: Item) {
    r.col.Some? && r.pk.Some? && r.pk.value.text != ""
  }

  /** A table in the order in which the proxy returns it: by column value, then by key in the order of the database. */
  ghost predicate Ordered(table: seq<Item>) {
    && (forall i | 0 <= i < |table| :: Complete(table[i]))
    && (forall i, j | 0 <= i < j < |table| ::
          table[i].col.value <= table[j].col.value && (table[i].col == table[j].col ==> table[i].pk != table[j].pk))
  }

  /** No later row of a group is at most an earlier one in the connector's comparison of keys. */
  ghost predicate Distinguished(table: seq<Item>) {
    forall i, j | 0 <= i < j < |table| && table[i].col == table[j].col :: !KeyAtMost(KeyOf(table[j]), KeyOf(table[i]))
  }

  /** The connector compares keys as the database orders them. */
  ghost predicate Comparable(table: seq<Item>) {
    && Distinguished(table)
    && forall i, j | 0 <= i < j < |table| && table[i].col == table[j].col :: KeyAtMost(KeyOf(table[i]), KeyOf(table[j]))
  }

  /** Both keys are numbers and the first is smaller, or neither is a number and its text comes first. */
  ghost predicate KeyPrecedes(a: Key, b: Key) {
    || (a.number.Some? && b.number.Some? && a.number.value < b.number.value)
    || (a.number.None? && b.number.None? && Precedes(a.text, b.text))
  }

  /** The keys of each group are numbers that ascend, or none is a number and they ascend as texts. */
  ghost predicate KeysAscend(table: seq<Item>) {
    forall i, j | 0 <= i < j < |table| && table[i].col == table[j].col ::
      table[i].pk.Some? && table[j].pk.Some? && KeyPrecedes(table[i].pk.value, table[j].pk.value)
  }

  lemma KeyPrecedesCompares(a: Key, b: Key)
    requires KeyPrecedes(a, b)
    ensures KeyAtMost(a, b) && !KeyAtMost(b, a)
  {
    TextLessPrecedes(a.text, b.text);
    TextLessTotal(a.text, b.text);
  }

  /** Then the connector compares the keys of the table as they are ordered. */
  lemma KeysAscendCompare(table: seq<Item>)
    requires KeysAscend(table)
    ensures Comparable(table)
  {
    forall i, j | 0 <= i < j < |table| && table[i].col == table[j].col
      ensures KeyAtMost(KeyOf(table[i]), KeyOf(table[j])) && !KeyAtMost(KeyOf(table[j]), KeyOf(table[i]))
    {
      KeyPrecedesCompares(table[i].pk.value, table[j].pk.value);
    }
  }

  /** Row j has the column value of the cursor and stands at or before the row that the cursor names. */
  predicate AtOrBefore(table: seq<Item>, j: nat, c: Cursor) {
    exists m | j <= m < |table| :: table[m].col == c.lastValue && table[m].pk == Some(c.lastId)
  }

  predicate Asked(table: seq<Item>, j: nat, cursor: Option<Cursor>, honours: bool)
    requires j < |table|
  {
    match cursor
    case None => true
    case Some(c) =>
      && (c.lastValue.Some? && table[j].col.Some? ==> table[j].col.value >= c.lastValue.value)
      && !(honours && c.lastId.text != "" && table[j].col == c.lastValue && AtOrBefore(table, j, c))
  }

  /** The index of the first row from i on that the cursor asks for. */
  function FirstAsked(table: seq<Item>, cursor: Option<Cursor>, honours: bool, i: nat): (k: nat)
    requires i <= |table|
    ensures i <= k <= |table|
    ensures k < |table| ==> Asked(table, k, cursor, honours)
    ensures forall j | i <= j < k :: !Asked(table, j, cursor, honours)
    decreases |table| - i
  {
    if i == |table| || Asked(table, i, cursor, honours) then i else FirstAsked(table, cursor, honours, i + 1)
  }

  function Slice(table: seq<Item>, from: nat, limit: nat): seq<Item>
    requires from <= |table|
  {
    if from + limit <= |table| then table[from..from + limit] else table[from..]
  }

  /**
    * The contract of the proxy: up to `limit` rows with a column value of at least `cursor_value`.
    * A proxy that honours `cursor_last_id` also leaves out the rows up to the one that the cursor names.
    */
  function AnswerIncremental(table: seq<Item>, cursor: Option<Cursor>, honours: bool, limit: nat): seq<Item> {
    Slice(table, FirstAsked(table, cursor, honours, 0), limit)
  }

  /** Each page of a run: the proxy's answer as `fetchBatchIncremental` passes it on. */
  function Pages(table: seq<Item>, batchSize: nat, honours: bool): Option<Cursor> -> IncrementalOutcome {
    cursor => BatchOf(AnswerIncremental(table, cursor, honours, batchSize), cursor, batchSize)
  }

  /** What a run delivers, and the cursor that its last page returns. */
  datatype Run = Run(records: seq<Item>, cursor: Option<Cursor>)

  /** A run from a cursor over an unchanging table; None if it has thrown, or not ended after `fuel` pages. */
  function Collect(fetch: Option<Cursor> -> IncrementalOutcome, cursor: Option<Cursor>, fuel: nat): Option<Run>
    decreases fuel
  {
    if fuel == 0 || !fetch(cursor).IncrementalBatch? then None
    else
      var batch := fetch(cursor);
      if !batch.hasMore then Some(Run(batch.records, batch.nextCursor))
      else
        match Collect(fetch, batch.nextCursor, fuel - 1)
        case None => None
        case Some(rest) => Some(Run(batch.records + rest.records, rest.cursor))
  }

  // ---- Runs in general

  /** The cursor behind the first k rows. */
  function CursorAt(table: seq<Item>, k: nat): Option<Cursor>
    requires k <= |table|
  {
    if k == 0 then None else Some(Position(table[k - 1]))
  }

  /** The cursor that the last page of a run returns when it starts behind the first k rows. */
  function EndCursor(table: seq<Item>, k: nat): Option<Cursor>
    requires k <= |table|
  {
    if k == |table| then None else CursorAt(table, |table|)
  }

  /**
    * From behind the first k rows the next page delivers the rows up to stop(k) and moves behind them, or
    * there are not so many, and it delivers the rest and ends.
    */
  ghost predicate Advances(fetch: Option<Cursor> -> IncrementalOutcome, table: seq<Item>, stop: nat -> nat, k: nat)
    requires k <= |table|
  {
    k < stop(k) &&
    fetch(CursorAt(table, k)) ==
    if stop(k) <= |table| then IncrementalBatch(table[k..stop(k)], CursorAt(table, stop(k)), true)
    else IncrementalBatch(table[k..], EndCursor(table, k), false)
  }

  /** Where the last page of a run from k over n rows starts. */
  function LastStart(stop: nat -> nat, n: nat, k: nat): (last: nat)
    requires k <= n
    ensures k <= last <= n
    decreases n - k
  {
    if k < stop(k) <= n then LastStart(stop, n, stop(k)) else k
  }

  lemma {:induction false} AdvancingRun(fetch: Option<Cursor> -> IncrementalOutcome, table: seq<Item>, stop: nat -> nat,
        k: nat, fuel: nat)
    requires forall l: nat | l <= |table| :: Advances(fetch, table, stop, l)
    requires k <= |table| && fuel > |table| - k
    ensures Collect(fetch, CursorAt(table, k), fuel) ==
                Some(Run(table[k..], EndCursor(table, LastStart(stop, |table|, k))))
    decreases fuel
  {
    assert Advances(fetch, table, stop, k);
    if stop(k) > |table| {
    } else {
      AdvancingRun(fetch, table, stop, stop(k), fuel - 1);
      SliceJoins(table, k, stop(k));
    }
  }

  lemma SliceJoins(table: seq<Item>, k: nat, to: nat)
    requires k <= to <= |table|
    ensures table[k..to] + table[to..] == table[k..]
    ensures to == |table| ==> table[k..to] == table[k..]
  {
  }

  /** From behind the first k rows the next page says that there is more and moves to another such place. */
  ghost predicate Lingers(fetch: Option<Cursor> -> IncrementalOutcome, table: seq<Item>, places: set<nat>, k: nat)
    requires k <= |table|
  {
    var batch := fetch(CursorAt(table, k));
    && batch.IncrementalBatch? && batch.hasMore
    && exists to | to in places && to <= |table| :: batch.nextCursor == CursorAt(table, to)
  }

  lemma {:induction false} LingeringRun(fetch: Option<Cursor> -> IncrementalOutcome, table: seq<Item>, places: set<nat>,
        k: nat, fuel: nat)
    requires forall l | l in places :: l <= |table|
    requires forall l {:trigger Lingers(fetch, table, places, l)} | l in places :: Lingers(fetch, table, places, l)
    requires k in places
    ensures Collect(fetch, CursorAt(table, k), fuel) == None
    decreases fuel
  {
    if fuel == 0 {
    } else {
      assert Lingers(fetch, table, places, k);
      var to :| to in places && to <= |table| && fetch(CursorAt(table, k)).nextCursor == CursorAt(table, to);
      LingeringRun(fetch, table, places, to, fuel - 1);
    }
  }

  // ---- The client-side filter

  lemma {:induction false} UnseenAll(rows: seq<Item>, lastValue: Option<int>, lastId: Key)
    requires forall r <- rows :: !Seen(r, lastValue, lastId)
    ensures Unseen(rows, lastValue, lastId) == rows
  {
    if rows == [] {
    } else {
      UnseenAll(rows[1..], lastValue, lastId);
    }
  }

  lemma {:induction false} UnseenOnly(rows: seq<Item>, lastValue: Option<int>, lastId: Key)
    ensures forall r <- Unseen(rows, lastValue, lastId) :: r in rows && !Seen(r, lastValue, lastId)
  {
    if rows == [] {
    } else {
      UnseenOnly(rows[1..], lastValue, lastId);
    }
  }

  lemma {:induction false} UnseenDrops(rows: seq<Item>, k: nat, lastValue: Option<int>, lastId: Key)
    requires k <= |rows| && forall i | 0 <= i < k :: Seen(rows[i], lastValue, lastId)
    ensures Unseen(rows, lastValue, lastId) == Unseen(rows[k..], lastValue, lastId)
  {
    if k == 0 {
      assert rows[0..] == rows;
    } else {
      UnseenDrops(rows[1..], k - 1, lastValue, lastId);
      assert rows[1..][k - 1..] == rows[k..];
    }
  }

  /** Filtering a slice that starts in the group of row k - 1, or at k, leaves the rows from k on. */
  lemma FilteredSlice(table: seq<Item>, from: nat, k: nat, to: nat)
    requires Ordered(table) && Distinguished(table) && (from < k ==> Comparable(table))
    requires from <= to <= |table| && from <= k <= |table|
    requires k > 0 ==> forall i | from <= i < k :: table[i].col == table[k - 1].col
    requires k == 0 ==> from == 0
    ensures Filtered(table[from..to], CursorAt(table, k)) == if k <= to then table[k..to] else []
  {
    if k > 0 {
      var c := Position(table[k - 1]);
      var rows := table[from..to];
      var seen := if k <= to then k - from else to - from;
      assert Complete(table[k - 1]);
      EarlierRowsSeen(table, from, k);
      assert forall i | 0 <= i < seen :: rows[i] == table[from + i];
      UnseenDrops(rows, seen, c.lastValue, c.lastId);
      if k <= to {
        assert rows[seen..] == table[k..to];
        LaterRowsUnseen(table, k, to);
      } else {
        assert rows[seen..] == [];
      }
    }
  }

  lemma EarlierRowsSeen(table: seq<Item>, from: nat, k: nat)
    requires Ordered(table) && (from < k ==> Comparable(table))
    requires from <= k <= |table| && 0 < k
    requires forall i | from <= i < k :: table[i].col == table[k - 1].col
    ensures var c := Position(table[k - 1]); forall i | from <= i < k :: Seen(table[i], c.lastValue, c.lastId)
  {
    forall i | from <= i < k
      ensures KeyAtMost(KeyOf(table[i]), KeyOf(table[k - 1]))
    {
      if i == k - 1 {
        KeyAtMostItself(KeyOf(table[i]));
      }
    }
  }

  lemma KeyAtMostItself(key: Key)
    ensures KeyAtMost(key, key)
  {
  }

  lemma LaterRowsUnseen(table: seq<Item>, k: nat, to: nat)
    requires Ordered(table) && Distinguished(table) && 0 < k <= to <= |table|
    ensures var c := Position(table[k - 1]); Unseen(table[k..to], c.lastValue, c.lastId) == table[k..to]
  {
    var c := Position(table[k - 1]);
    forall r <- table[k..to]
      ensures !Seen(r, c.lastValue, c.lastId)
    {
      var j :| k <= j < to && table[j] == r;
    }
    UnseenAll(table[k..to], c.lastValue, c.lastId);
  }

  /** The page that starts at g when the cursor is behind the first k rows. */
  function PageFrom(table: seq<Item>, batchSize: nat, g: nat, k: nat): IncrementalOutcome
    requires g <= k <= |table|
  {
    var more := g + batchSize <= |table|;
    var to := if more then g + batchSize else |table|;
    IncrementalBatch(if k <= to then table[k..to] else [], if k < to || more then CursorAt(table, to) else None, more)
  }

  /** The batch of an answer that is a slice of the table, of which the filter leaves the rows from k on. */
  lemma BatchOfSlice(table: seq<Item>, cursor: Option<Cursor>, batchSize: nat, g: nat, k: nat)
    requires Ordered(table) && g <= k <= |table| && 1 <= batchSize
    requires var to := if g + batchSize <= |table| then g + batchSize else |table|;
             Filtered(table[g..to], cursor) == if k <= to then table[k..to] else []
    ensures var to := if g + batchSize <= |table| then g + batchSize else |table|;
            BatchOf(table[g..to], cursor, batchSize) == PageFrom(table, batchSize, g, k)
  {
    var to := if g + batchSize <= |table| then g + batchSize else |table|;
    var filtered := if k <= to then table[k..to] else [];
    SliceComplete(table, g, to);
    SliceComplete(table, if k <= to then k else to, to);
    BatchOfComplete(table[g..to], cursor, batchSize, filtered);
    CursorsMeet(table, batchSize, g, k, to);
  }

  /** The cursor that a batch of complete rows returns. */
  function NextPosition(rows: seq<Item>, filtered: seq<Item>, batchSize: nat): Option<Cursor> {
    if filtered != [] then Some(Position(filtered[|filtered| - 1]))
    else if |rows| == batchSize && rows != [] then Some(Position(rows[|rows| - 1]))
    else None
  }

  lemma CursorsMeet(table: seq<Item>, batchSize: nat, g: nat, k: nat, to: nat)
    requires g <= k <= |table| && 1 <= batchSize
    requires to == if g + batchSize <= |table| then g + batchSize else |table|
    ensures NextPosition(table[g..to], if k <= to then table[k..to] else [], batchSize) ==
            if k < to || g + batchSize <= |table| then CursorAt(table, to) else None
  {
    if k < to {
      assert table[k..to][to - k - 1] == table[to - 1];
    } else {
      assert k == to ==> table[k..to] == [];
      assert g < to ==> table[g..to][to - g - 1] == table[to - 1];
    }
  }

  lemma BatchOfComplete(rows: seq<Item>, cursor: Option<Cursor>, batchSize: nat, filtered: seq<Item>)
    requires filtered == Filtered(rows, cursor)
    requires (forall r <- rows :: Complete(r)) && (forall r <- filtered :: Complete(r))
    ensures BatchOf(rows, cursor, batchSize) ==
            IncrementalBatch(filtered, NextPosition(rows, filtered, batchSize), |rows| == batchSize)
  {
    if filtered != [] {
      assert Complete(filtered[|filtered| - 1]);
    } else if rows != [] {
      assert Complete(rows[|rows| - 1]);
    }
  }

  lemma SliceComplete(table: seq<Item>, k: nat, to: nat)
    requires Ordered(table) && k <= to <= |table|
    ensures forall r <- table[k..to] :: Complete(r)
  {
    forall r <- table[k..to]
      ensures Complete(r)
    {
      var j :| k <= j < to && table[j] == r;
    }
  }

  // ---- A proxy that honours cursor_last_id

  lemma HonouredStart(table: seq<Item>, k: nat)
    requires Ordered(table) && k <= |table|
    ensures FirstAsked(table, CursorAt(table, k), true, 0) == k
  {
    if k > 0 {
      var c := Position(table[k - 1]);
      assert Complete(table[k - 1]);
      forall i | 0 <= i < k
        ensures !Asked(table, i, Some(c), true)
      {
        assert Complete(table[i]);
        assert table[k - 1].col == c.lastValue && table[k - 1].pk == Some(c.lastId);
        assert AtOrBefore(table, i, c);
      }
      if k < |table| {
        assert Complete(table[k]);
        assert Asked(table, k, Some(c), true);
      }
    }
  }

  function HonouringStop(batchSize: nat): nat -> nat {
    (k: nat) => k + batchSize
  }

  lemma HonouringPage(table: seq<Item>, batchSize: nat, k: nat)
    requires Ordered(table) && Distinguished(table) && batchSize >= 1 && k <= |table|
    ensures Advances(Pages(table, batchSize, true), table, HonouringStop(batchSize), k)
  {
    var to := if k + batchSize <= |table| then k + batchSize else |table|;
    HonouredStart(table, k);
    FilteredSlice(table, k, k, to);
    BatchOfSlice(table, CursorAt(table, k), batchSize, k, k);
    AnswerIsSlice(table, CursorAt(table, k), true, batchSize, k, to);
    PageAdvances(table, batchSize, k, k, HonouringStop(batchSize), Pages(table, batchSize, true));
  }

  lemma {:induction false} LastStartOfSteps(batchSize: nat, n: nat, k: nat)
    requires batchSize >= 1 && k <= n
    ensures LastStart(HonouringStop(batchSize), n, k) == n - (n - k) % batchSize
    decreases n - k
  {
    if k + batchSize <= n {
      LastStartOfSteps(batchSize, n, k + batchSize);
      ModMinus(n - k, batchSize);
    } else {
      SmallMod(n - k, batchSize);
    }
  }

  /**
    * Over a proxy that honours `cursor_last_id`, resuming behind the first k rows delivers exactly the
    * others, in order, and ends. Its last page returns the position behind them if and only if their
    * number is not a multiple of the batch size; otherwise that page is empty and returns no cursor.
    */
  lemma HonouringRun(table: seq<Item>, batchSize: nat, k: nat, fuel: nat)
    requires Ordered(table) && Distinguished(table) && batchSize >= 1 && k <= |table| && fuel > |table| - k
    ensures Collect(Pages(table, batchSize, true), CursorAt(table, k), fuel) ==
            Some(Run(table[k..], if (|table| - k) % batchSize == 0 then None else CursorAt(table, |table|)))
  {
    HonouringRunEnds(table, batchSize, k, fuel);
    StepsEnd(Pages(table, batchSize, true), table, batchSize, k, fuel);
  }

  lemma StepsEnd(fetch: Option<Cursor> -> IncrementalOutcome, table: seq<Item>, batchSize: nat, k: nat, fuel: nat)
    requires batchSize >= 1 && k <= |table|
    requires Collect(fetch, CursorAt(table, k), fuel) ==
             Some(Run(table[k..], EndCursor(table, LastStart(HonouringStop(batchSize), |table|, k))))
    ensures Collect(fetch, CursorAt(table, k), fuel) ==
            Some(Run(table[k..], if (|table| - k) % batchSize == 0 then None else CursorAt(table, |table|)))
  {
    LastStartOfSteps(batchSize, |table|, k);
    EndOfSteps(table, batchSize, k);
  }

  lemma HonouringRunEnds(table: seq<Item>, batchSize: nat, k: nat, fuel: nat)
    requires Ordered(table) && Distinguished(table) && batchSize >= 1 && k <= |table| && fuel > |table| - k
    ensures Collect(Pages(table, batchSize, true), CursorAt(table, k), fuel) ==
            Some(Run(table[k..], EndCursor(table, LastStart(HonouringStop(batchSize), |table|, k))))
  {
    forall l: nat | l <= |table|
      ensures Advances(Pages(table, batchSize, true), table, HonouringStop(batchSize), l)
    {
      HonouringPage(table, batchSize, l);
    }
    AdvancingRun(Pages(table, batchSize, true), table, HonouringStop(batchSize), k, fuel);
  }

  lemma EndOfSteps(table: seq<Item>, batchSize: nat, k: nat)
    requires batchSize >= 1 && k <= |table|
    ensures var last := |table| - (|table| - k) % batchSize;
            && 0 <= last <= |table|
            && EndCursor(table, last) == if (|table| - k) % batchSize == 0 then None else CursorAt(table, |table|)
  {
    AtMostWhole(|table| - k, batchSize);
  }

  /** Resuming behind the first k rows delivers exactly the others. */
  ghost predicate DeliversRest(table: seq<Item>, batchSize: nat, k: nat)
    requires k <= |table|
  {
    var run := Collect(Pages(table, batchSize, true), CursorAt(table, k), |table| + 1);
    run.Some? && run.value.records == table[k..]
  }

  ghost predicate DeliversAlways(table: seq<Item>) {
    forall batchSize: nat, k: nat | 1 <= batchSize && k <= |table| :: DeliversRest(table, batchSize, k)
  }

  lemma HonouringRunDelivers(table: seq<Item>, batchSize: nat, k: nat)
    requires Ordered(table) && Distinguished(table) && batchSize >= 1 && k <= |table|
    ensures DeliversRest(table, batchSize, k)
  {
    HonouringRun(table, batchSize, k, |table| + 1);
  }

  /**
    * Every run, with every page size and from every place, delivers exactly the remaining rows if and only if no
    * later row of a group is at most an earlier one in the connector's comparison of their keys.
    */
  lemma HonouringRunsExactly(table: seq<Item>)
    requires Ordered(table)
    ensures DeliversAlways(table) <==> Distinguished(table)
  {
    if Distinguished(table) {
      forall batchSize: nat, k: nat | 1 <= batchSize && k <= |table|
        ensures DeliversRest(table, batchSize, k)
      {
        HonouringRunDelivers(table, batchSize, k);
      }
    } else {
      var i, j :| 0 <= i < j < |table| && table[i].col == table[j].col && KeyAtMost(KeyOf(table[j]), KeyOf(table[i]));
      ConfusedRowIsLost(table, i, j);
      assert !DeliversRest(table, |table| + 1, i + 1);
    }
  }

  lemma ConfusedRowIsLost(table: seq<Item>, i: nat, j: nat)
    requires Ordered(table) && i < j < |table|
    requires table[i].col == table[j].col && KeyAtMost(KeyOf(table[j]), KeyOf(table[i]))
    ensures !DeliversRest(table, |table| + 1, i + 1)
  {
    var k, c := i + 1, Position(table[i]);
    HonouredStart(table, k);
    assert Complete(table[i]);
    assert AnswerIncremental(table, CursorAt(table, k), true, |table| + 1) == table[k..];
    UnseenOnly(table[k..], c.lastValue, c.lastId);
    assert table[k..][j - k] == table[j] && Seen(table[j], c.lastValue, c.lastId);
  }

  /** Two rows with the same column value whose keys differ as text, although `Number` makes the same of both. */
  lemma RoundedKeyIsLost(col: int, first: string, second: string, number: real)
    requires first != "" && second != "" && first != second
    ensures var table := [Item(Some(col), Some(Key(first, Some(number)))),
                Item(Some(col), Some(Key(second, Some(number))))];
            Ordered(table) && !DeliversRest(table, 3, 1)
  {
    var table := [Item(Some(col), Some(Key(first, Some(number)))), Item(Some(col), Some(Key(second, Some(number))))];
    assert table[0].pk != table[1].pk;
    ConfusedRowIsLost(table, 0, 1);
  }

  /** The texts of 2^53 and 2^53 + 1 are such keys: resuming behind the first loses the second. */
  lemma LargeKeyIsLost()
    ensures var table := [Item(Some(7), Some(Key("9007199254740992", Some(9007199254740992.0)))),
                          Item(Some(7), Some(Key("9007199254740993", Some(9007199254740992.0))))];
            Ordered(table) && !DeliversRest(table, 3, 1)
  {
    assert "9007199254740992"[15] != "9007199254740993"[15];
    RoundedKeyIsLost(7, "9007199254740992", "9007199254740993", 9007199254740992.0);
  }

  /** Ascending keys suffice for every run to deliver exactly the remaining rows. */
  lemma KeyedRunHonoured(table: seq<Item>, batchSize: nat, k: nat, fuel: nat)
    requires Ordered(table) && KeysAscend(table) && batchSize >= 1 && k <= |table| && fuel > |table| - k
    ensures Collect(Pages(table, batchSize, true), CursorAt(table, k), fuel) ==
            Some(Run(table[k..], if (|table| - k) % batchSize == 0 then None else CursorAt(table, |table|)))
  {
    KeysAscendCompare(table);
    HonouringRun(table, batchSize, k, fuel);
  }

  // ---- A proxy that ignores cursor_last_id

  /** The start of the group of rows that share the column value of row k - 1. */
  function GroupStart(table: seq<Item>, k: nat): (g: nat)
    requires k <= |table|
    ensures g <= |table|
  {
    FirstAsked(table, CursorAt(table, k), false, 0)
  }

  lemma GroupStarts(table: seq<Item>, k: nat)
    requires Ordered(table) && 0 < k <= |table|
    ensures var g := GroupStart(table, k);
            && g < k
            && (forall i | g <= i < k :: table[i].col == table[k - 1].col)
            && (forall i | 0 <= i < g :: table[i].col.Some? && table[i].col.value < table[k - 1].col.value)
  {
    var g := GroupStart(table, k);
    assert Complete(table[k - 1]);
    assert Asked(table, k - 1, CursorAt(table, k), false);
    forall i | g <= i < k
      ensures table[i].col == table[k - 1].col
    {
      assert Complete(table[g]) && Complete(table[i]);
      assert table[g].col.value >= table[k - 1].col.value;
    }
    forall i | 0 <= i < g
      ensures table[i].col.Some? && table[i].col.value < table[k - 1].col.value
    {
      assert Complete(table[i]) && !Asked(table, i, CursorAt(table, k), false);
    }
  }

  /** Every group of rows with equal column values has fewer than `batchSize` rows. */
  ghost predicate SmallGroups(table: seq<Item>, batchSize: nat) {
    forall i, j | 0 <= i <= j < |table| && table[i].col == table[j].col :: j - i + 1 < batchSize
  }

  /** Where the page behind the first k rows stops. */
  function IgnoringStop(table: seq<Item>, batchSize: nat): nat -> nat {
    (k: nat) => if k <= |table| then GroupStart(table, k) + batchSize else k
  }

  lemma IgnoringPage(table: seq<Item>, batchSize: nat, k: nat)
    requires Ordered(table) && Comparable(table) && batchSize >= 1 && k <= |table|
    ensures var g := GroupStart(table, k);
            g <= k && Pages(table, batchSize, false)(CursorAt(table, k)) == PageFrom(table, batchSize, g, k)
  {
    var g := GroupStart(table, k);
    if k > 0 {
      GroupStarts(table, k);
    } else {
      assert g == 0;
    }
    var to := if g + batchSize <= |table| then g + batchSize else |table|;
    FilteredSlice(table, g, k, to);
    BatchOfSlice(table, CursorAt(table, k), batchSize, g, k);
    AnswerIsSlice(table, CursorAt(table, k), false, batchSize, g, to);
  }

  lemma AnswerIsSlice(table: seq<Item>, cursor: Option<Cursor>, honours: bool, limit: nat, from: nat, to: nat)
    requires from <= to <= |table| && from == FirstAsked(table, cursor, honours, 0)
    requires to == if from + limit <= |table| then from + limit else |table|
    ensures AnswerIncremental(table, cursor, honours, limit) == table[from..to]
    ensures Pages(table, limit, honours)(cursor) == BatchOf(table[from..to], cursor, limit)
  {
    SliceJoins(table, from, to);
  }

  lemma IgnoringAdvances(table: seq<Item>, batchSize: nat, k: nat)
    requires Ordered(table) && Comparable(table) && batchSize >= 1 && SmallGroups(table, batchSize) && k <= |table|
    ensures Advances(Pages(table, batchSize, false), table, IgnoringStop(table, batchSize), k)
  {
    IgnoringPage(table, batchSize, k);
    var g := GroupStart(table, k);
    if k > 0 {
      GroupStarts(table, k);
      assert k - 1 - g + 1 < batchSize;
    }
    PageAdvances(table, batchSize, g, k, IgnoringStop(table, batchSize), Pages(table, batchSize, false));
  }

  lemma PageAdvances(table: seq<Item>, batchSize: nat, g: nat, k: nat, stop: nat -> nat,
                     fetch: Option<Cursor> -> IncrementalOutcome)
    requires g <= k <= |table| && k < g + batchSize && stop(k) == g + batchSize
    requires fetch(CursorAt(table, k)) == PageFrom(table, batchSize, g, k)
    ensures Advances(fetch, table, stop, k)
  {
    SliceJoins(table, k, |table|);
  }

  /**
    * With small groups the client-side filter alone delivers every row once, and the run ends. Its last page returns
    * the position if and only if it does not start at the end of the table.
    */
  lemma IgnoringRun(table: seq<Item>, batchSize: nat, k: nat, fuel: nat)
    requires Ordered(table) && Comparable(table) && batchSize >= 1 && SmallGroups(table, batchSize)
    requires k <= |table| && fuel > |table| - k
    ensures Collect(Pages(table, batchSize, false), CursorAt(table, k), fuel) ==
            Some(Run(table[k..], EndCursor(table, LastStart(IgnoringStop(table, batchSize), |table|, k))))
  {
    forall l: nat | l <= |table|
      ensures Advances(Pages(table, batchSize, false), table, IgnoringStop(table, batchSize), l)
    {
      IgnoringAdvances(table, batchSize, l);
    }
    AdvancingRun(Pages(table, batchSize, false), table, IgnoringStop(table, batchSize), k, fuel);
  }

  lemma KeyedRunIgnored(table: seq<Item>, batchSize: nat, k: nat, fuel: nat)
    requires Ordered(table) && KeysAscend(table) && batchSize >= 1 && SmallGroups(table, batchSize)
    requires k <= |table| && fuel > |table| - k
    ensures var run := Collect(Pages(table, batchSize, false), CursorAt(table, k), fuel);
            run.Some? && run.value.records == table[k..]
  {
    KeysAscendCompare(table);
    IgnoringRun(table, batchSize, k, fuel);
  }

  lemma StartsAscend(table: seq<Item>, k: nat, l: nat)
    requires Ordered(table) && 0 < k <= l <= |table|
    ensures GroupStart(table, k) <= GroupStart(table, l)
  {
    GroupStarts(table, k);
    GroupStarts(table, l);
    assert Complete(table[k - 1]) && Complete(table[l - 1]);
    assert table[GroupStart(table, l)].col == table[l - 1].col;
    assert table[l - 1].col.value >= table[k - 1].col.value;
  }

  /** The places up to the batchSize-th row of a large group that a page reaches without passing it. */
  function BeforeLargeGroup(table: seq<Item>, batchSize: nat, big: nat): set<nat> {
    set k: nat | k <= |table| && k <= big + batchSize && k <= GroupStart(table, k) + batchSize
  }

  /** From such a place the next page leads to another one, and always says that there is more. */
  lemma LargeGroupLingers(table: seq<Item>, batchSize: nat, big: nat, k: nat)
    requires Ordered(table) && Comparable(table) && batchSize >= 1
    requires big + batchSize <= |table| && table[big].col == table[big + batchSize - 1].col
    requires big == GroupStart(table, big + 1)
    requires k in BeforeLargeGroup(table, batchSize, big)
    ensures Lingers(Pages(table, batchSize, false), table, BeforeLargeGroup(table, batchSize, big), k)
  {
    IgnoringPage(table, batchSize, k);
    StartsBefore(table, batchSize, big, k);
    var to := GroupStart(table, k) + batchSize;
    StartsAscendTo(table, k, to);
    assert to in BeforeLargeGroup(table, batchSize, big);
  }

  lemma StartsBefore(table: seq<Item>, batchSize: nat, big: nat, k: nat)
    requires Ordered(table) && batchSize >= 1
    requires big + batchSize <= |table| && table[big].col == table[big + batchSize - 1].col
    requires big == GroupStart(table, big + 1)
    requires k <= big + batchSize
    ensures GroupStart(table, k) <= big
  {
    if k > 0 {
      var top := big + batchSize;
      StartsAscend(table, k, top);
      GroupStarts(table, top);
      GroupStarts(table, big + 1);
      assert Complete(table[big]);
      assert !(table[big].col.value < table[top - 1].col.value);
    }
  }

  lemma StartsAscendTo(table: seq<Item>, k: nat, to: nat)
    requires Ordered(table) && k <= to <= |table| && 0 < to
    ensures GroupStart(table, k) <= GroupStart(table, to)
  {
    if k > 0 {
      StartsAscend(table, k, to);
    } else {
      assert GroupStart(table, 0) == 0;
    }
  }

  /**
    * Over an unchanging table and a proxy that ignores `cursor_last_id`, a run ends if and only if
    * every group of equal column values has fewer than `batchSize` rows; then it delivers every
    * row exactly once, in order.
    */
  lemma IgnoringRunEndsExactly(table: seq<Item>, batchSize: nat)
    requires Ordered(table) && Comparable(table) && batchSize >= 1
    ensures (exists fuel: nat :: Collect(Pages(table, batchSize, false), None, fuel).Some?) <==>
                SmallGroups(table, batchSize)
    ensures SmallGroups(table, batchSize) ==>
              var run := Collect(Pages(table, batchSize, false), None, |table| + 1);
              run.Some? && run.value.records == table
  {
    if SmallGroups(table, batchSize) {
      IgnoringRun(table, batchSize, 0, |table| + 1);
      assert table[0..] == table;
    } else {
      forall fuel: nat
        ensures Collect(Pages(table, batchSize, false), None, fuel) == None
      {
        LargeGroupNeverEnds(table, batchSize, fuel);
      }
    }
  }

  lemma LargeGroupNeverEnds(table: seq<Item>, batchSize: nat, fuel: nat)
    requires Ordered(table) && Comparable(table) && batchSize >= 1 && !SmallGroups(table, batchSize)
    ensures Collect(Pages(table, batchSize, false), None, fuel) == None
  {
    var i, j :| 0 <= i <= j < |table| && table[i].col == table[j].col && j - i + 1 >= batchSize;
    var big := GroupStart(table, i + 1);
    GroupStarts(table, i + 1);
    LargeGroup(table, batchSize, big, i, j);
    var places := BeforeLargeGroup(table, batchSize, big);
    forall k | k in places
      ensures Lingers(Pages(table, batchSize, false), table, places, k)
    {
      LargeGroupLingers(table, batchSize, big, k);
    }
    LingeringRun(Pages(table, batchSize, false), table, places, 0, fuel);
  }

  function Numeric(n: int, text: string): Option<Key> {
    Some(Key(text, Some(n as real)))
  }

  /** Two rows with the same column value and a batch size of two: the second page repeats for ever. */
  lemma EqualPairNeverEnds(fuel: nat)
    ensures Collect(Pages([Item(Some(7), Numeric(1, "1")), Item(Some(7), Numeric(2, "2"))],
                2, false), None, fuel) == None
  {
    var table := [Item(Some(7), Numeric(1, "1")), Item(Some(7), Numeric(2, "2"))];
    assert table[0].col == table[1].col;
    LargeGroupNeverEnds(table, 2, fuel);
  }

  lemma LargeGroup(table: seq<Item>, batchSize: nat, big: nat, i: nat, j: nat)
    requires Ordered(table) && batchSize >= 1
    requires i <= j < |table| && table[i].col == table[j].col && j - i + 1 >= batchSize
    requires big == GroupStart(table, i + 1) && big <= i
    requires forall m | big <= m <= i :: table[m].col == table[i].col
    requires forall m | 0 <= m < big :: table[m].col.Some? && table[m].col.value < table[i].col.value
    ensures big + batchSize <= |table| && table[big].col == table[big + batchSize - 1].col
    ensures big == GroupStart(table, big + 1)
  {
    var last := big + batchSize - 1;
    assert last <= j;
    assert Complete(table[i]) && Complete(table[last]) && Complete(table[j]);
    assert CursorAt(table, big + 1).value.lastValue == table[i].col;
    GroupStarts(table, big + 1);
  }
}
