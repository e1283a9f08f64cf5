/** Paging of the MySQL connector under the sync job that stores its cursors. */
module MySqlSync {
  import opened Wrappers
  import opened Division
  import opened MySqlPaging
  import opened SyncJob

  /** The rows that a job at this cursor has still to deliver. */
  function Due(table: seq<Row>, cfg: Config, cursor: Option<Cursor>): seq<Row> {
    var Cursor(offset, since) := Decoded(cursor);
    var rows := RunRows(table, cfg, since);
    if offset <= |rows| then rows[offset..] else []
  }

  ghost predicate DistinctIds(rows: seq<Row>) {
    forall i, j | 0 <= i < j < |rows| :: rows[i].id != rows[j].id
  }

  /** New rows have a new key, and in an incremental table a value of the column's kind above all present ones. */
  predicate Fits(table: seq<Row>, cfg: Config, row: Row) {
    && (forall r <- table :: r.id != row.id)
    && (MySqlPaging.Incremental(cfg) ==>
          && row.col.Some? && OfKind(cfg, row.col)
          && forall r <- table :: r.col.Some? ==> Greater(row.col.value, r.col.value))
  }

  /** The table is in the order in which it is read; the cursor is between pages, and its mark is the value of a row. */
  ghost predicate Good(table: seq<Row>, cfg: Config, cursor: Option<Cursor>) {
    var Cursor(offset, since) := Decoded(cursor);
    && cfg.batchSize >= 1 && DistinctIds(table)
    && (MySqlPaging.Incremental(cfg) ==> Sorted(table) && AllOfKind(cfg, table))
    && offset <= |RunRows(table, cfg, since)| && offset % cfg.batchSize == 0
    && (since.Some? ==> MySqlPaging.Incremental(cfg) && exists r <- table :: r.col == since)
  }

  ghost function SourceOf(cfg: Config): Source<Cursor, Row> {
    Source(
      (table, cursor) => Some(Fetched(table, cfg, cursor)),
      (table, row) => Fits(table, cfg, row),
      (table, cursor) => Good(table, cfg, cursor),
      (table, cursor) => Due(table, cfg, cursor))
  }

  // ---- One page

  /** The `since` of the last page: the greatest value so far. */
  function LastSince(table: seq<Row>, cfg: Config, cursor: Option<Cursor>): Option<Value> {
    var since := Decoded(cursor).since;
    if MySqlPaging.Incremental(cfg) then HighWater(Due(table, cfg, cursor), since) else since
  }

  lemma LimitSplits(rows: seq<Row>, limit: nat, offset: nat)
    requires offset <= |rows| && limit >= 1
    ensures var due := rows[offset..];
            Limit(rows, limit, offset) == (if |due| >= limit then due[..limit] else due)
  {
  }

  lemma DueInTable(table: seq<Row>, cfg: Config, cursor: Option<Cursor>, r: Row)
    requires r in Due(table, cfg, cursor)
    ensures r in table
  {
    AboveMember(table, Decoded(cursor).since, r);
  }

  lemma LastMark(table: seq<Row>, cfg: Config, cursor: Option<Cursor>)
    requires Good(table, cfg, cursor)
    ensures FinalSince(Due(table, cfg, cursor), cfg, Decoded(cursor).since) == LastSince(table, cfg, cursor)
    ensures LastSince(table, cfg, cursor).Some? ==> exists r <- table :: r.col == LastSince(table, cfg, cursor)
  {
    var due, since := Due(table, cfg, cursor), Decoded(cursor).since;
    if MySqlPaging.Incremental(cfg) {
      forall r <- due
        ensures r in table && OfKind(cfg, r.col)
      {
        DueInTable(table, cfg, cursor, r);
      }
      MarkIsHighWater(cfg, due, since);
      HighWaterIsGreatest(due, since);
    }
  }

  /** What a page is, relative to the rows that are due. */
  function PageOfDue(table: seq<Row>, cfg: Config, cursor: Option<Cursor>): Batch<Cursor, Row> {
    var Cursor(offset, since) := Decoded(cursor);
    var due, last := Due(table, cfg, cursor), LastSince(table, cfg, cursor);
    if |due| >= cfg.batchSize then Batch(due[..cfg.batchSize], Some(Cursor(offset + cfg.batchSize, since)), true)
    else Batch(due, if last.Some? then Some(Cursor(0, last)) else None, false)
  }

  lemma FetchedIsPage(table: seq<Row>, cfg: Config, cursor: Option<Cursor>)
    requires Good(table, cfg, cursor)
    ensures Fetched(table, cfg, cursor) == PageOfDue(table, cfg, cursor)
  {
    var Cursor(offset, since) := Decoded(cursor);
    LimitSplits(RunRows(table, cfg, since), cfg.batchSize, offset);
    LastMark(table, cfg, cursor);
  }

  lemma NextIsGood(table: seq<Row>, cfg: Config, cursor: Option<Cursor>)
    requires Good(table, cfg, cursor)
    ensures var next := PageOfDue(table, cfg, cursor).nextCursor; next.Some? ==> Good(table, cfg, next)
  {
    LastMark(table, cfg, cursor);
    SmallMod(0, cfg.batchSize);
    ModMinus(Decoded(cursor).offset + cfg.batchSize, cfg.batchSize);
  }

  /** The page and what is due behind it are what is due. */
  lemma PageSplitsDue(table: seq<Row>, cfg: Config, cursor: Option<Cursor>)
    requires cfg.batchSize >= 1 && Decoded(cursor).offset <= |RunRows(table, cfg, Decoded(cursor).since)|
    ensures var batch := PageOfDue(table, cfg, cursor);
            if batch.hasMore
            then batch.nextCursor.Some? && batch.records != [] &&
                 batch.records + Due(table, cfg, batch.nextCursor) == Due(table, cfg, cursor)
            else batch.records == Due(table, cfg, cursor)
  {
    var Cursor(offset, since) := Decoded(cursor);
    var due, rows := Due(table, cfg, cursor), RunRows(table, cfg, since);
    if |due| >= cfg.batchSize {
      assert rows[offset + cfg.batchSize..] == due[cfg.batchSize..];
      assert due[..cfg.batchSize] + due[cfg.batchSize..] == due;
    }
  }

  lemma LawOfPage(src: Source<Cursor, Row>, table: seq<Row>, cursor: Option<Cursor>, batch: Batch<Cursor, Row>)
    requires src.fetch(table, cursor) == Some(batch)
    requires batch.nextCursor.Some? ==> src.good(table, batch.nextCursor)
    requires if batch.hasMore
             then batch.nextCursor.Some? && batch.records != [] &&
                  batch.records + src.due(table, batch.nextCursor) == src.due(table, cursor)
             else batch.records == src.due(table, cursor)
    ensures PageLaw(src, table, cursor)
  {
  }

  lemma PageIsLawful(table: seq<Row>, cfg: Config, cursor: Option<Cursor>)
    requires Good(table, cfg, cursor)
    ensures PageLaw(SourceOf(cfg), table, cursor)
  {
    FetchedIsPage(table, cfg, cursor);
    NextIsGood(table, cfg, cursor);
    PageSplitsDue(table, cfg, cursor);
    LawOfPage(SourceOf(cfg), table, cursor, PageOfDue(table, cfg, cursor));
  }

  // ---- A row more

  lemma SortedAppend(table: seq<Row>, row: Row)
    requires Sorted(table) && row.col.Some?
    requires forall r <- table :: r.col.Some? ==> Greater(row.col.value, r.col.value)
    ensures Sorted(table + [row])
  {
    forall i | 0 <= i < |table|
      ensures NotAfter(table[i].col, row.col)
    {
      assert table[i] in table;
      if table[i].col.Some? {
        GreaterTotal(table[i].col.value, row.col.value);
      }
    }
  }

  lemma RowIsDue(table: seq<Row>, cfg: Config, cursor: Option<Cursor>, row: Row)
    requires Good(table, cfg, cursor) && Fits(table, cfg, row)
    ensures GrowthLaw(SourceOf(cfg), table, cursor, row)
  {
    RunRowsGrow(table, cfg, cursor, row);
    GoodGrows(table, cfg, cursor, row);
    DueGrows(table, cfg, cursor, row);
  }

  lemma RunRowsGrow(table: seq<Row>, cfg: Config, cursor: Option<Cursor>, row: Row)
    requires Good(table, cfg, cursor) && Fits(table, cfg, row)
    ensures var since := Decoded(cursor).since;
            RunRows(table + [row], cfg, since) == RunRows(table, cfg, since) + [row]
  {
    assert (table + [row])[..|table|] == table;
  }

  lemma GoodGrows(table: seq<Row>, cfg: Config, cursor: Option<Cursor>, row: Row)
    requires Good(table, cfg, cursor) && Fits(table, cfg, row)
    requires var since := Decoded(cursor).since;
             RunRows(table + [row], cfg, since) == RunRows(table, cfg, since) + [row]
    ensures Good(table + [row], cfg, cursor)
  {
    var since := Decoded(cursor).since;
    RowIsGood(table, cfg, row);
    if since.Some? {
      var r :| r in table && r.col == since;
      assert r in table + [row];
    }
  }

  lemma DueGrows(table: seq<Row>, cfg: Config, cursor: Option<Cursor>, row: Row)
    requires Decoded(cursor).offset <= |RunRows(table, cfg, Decoded(cursor).since)|
    requires var since := Decoded(cursor).since;
             RunRows(table + [row], cfg, since) == RunRows(table, cfg, since) + [row]
    ensures Due(table + [row], cfg, cursor) == Due(table, cfg, cursor) + [row]
  {
  }

  lemma RowIsGood(table: seq<Row>, cfg: Config, row: Row)
    requires DistinctIds(table) && Fits(table, cfg, row)
    requires MySqlPaging.Incremental(cfg) ==> Sorted(table) && AllOfKind(cfg, table)
    ensures DistinctIds(table + [row])
    ensures MySqlPaging.Incremental(cfg) ==> Sorted(table + [row]) && AllOfKind(cfg, table + [row])
  {
    forall i | 0 <= i < |table|
      ensures table[i].id != row.id
    {
      assert table[i] in table;
    }
    if MySqlPaging.Incremental(cfg) {
      SortedAppend(table, row);
    }
  }

  lemma SourceIsLawful(cfg: Config)
    requires cfg.batchSize >= 1
    ensures Lawful(SourceOf(cfg))
  {
    var src := SourceOf(cfg);
    SmallMod(0, cfg.batchSize);
    forall table, cursor | src.good(table, cursor)
      ensures PageLaw(src, table, cursor)
      ensures src.good(table, None) && src.due(table, None) == table
    {
      PageIsLawful(table, cfg, cursor);
      assert table[0..] == table;
    }
    forall table, cursor, row | src.good(table, cursor) && src.fits(table, row)
      ensures GrowthLaw(src, table, cursor, row)
    {
      RowIsDue(table, cfg, cursor, row);
    }
  }

  // ---- What is due again after the last page

  predicate ReachesValue(rows: seq<Row>) {
    rows != [] && rows[|rows| - 1].col.Some?
  }

  predicate IsLast(table: seq<Row>, cfg: Config, cursor: Option<Cursor>) {
    |Due(table, cfg, cursor)| < cfg.batchSize
  }

  /**
    * The rows of the run when there is a mark and the last page is empty; the last page itself
    * when there is no mark and the page brings none; otherwise nothing.
    */
  function DueAgain(table: seq<Row>, cfg: Config, cursor: Option<Cursor>): seq<Row> {
    var due, since := Due(table, cfg, cursor), Decoded(cursor).since;
    if since.Some? then (if due == [] then RunRows(table, cfg, since) else [])
    else if MySqlPaging.Incremental(cfg) && ReachesValue(due) then []
    else due
  }

  lemma NothingAbove(table: seq<Row>, due: seq<Row>, since: Option<Value>)
    requires Sorted(table) && ReachesValue(due) && table != [] && table[|table| - 1] == due[|due| - 1]
    ensures HighWater(due, since).Some? && Above(table, HighWater(due, since)) == []
  {
    var final := HighWater(due, since);
    HighWaterIsGreatest(due, since);
    var last := due[|due| - 1];
    assert last in due && !Greater(last.col.value, final.value);
    if Above(table, final) != [] {
      var r := Above(table, final)[0];
      AboveMember(table, final, r);
      LastIsGreatest(table, r);
      AtMostTransitive(r.col.value, last.col.value, final.value);
    }
  }

  lemma SinceUnchanged(due: seq<Row>, since: Option<Value>)
    requires Sorted(due) && !ReachesValue(due)
    ensures HighWater(due, since) == since
  {
    forall r | r in due
      ensures r.col.None?
    {
      LastIsGreatest(due, r);
    }
    MarkStays(due, since);
  }

  lemma DueEndsTable(table: seq<Row>, cfg: Config, cursor: Option<Cursor>)
    requires Good(table, cfg, cursor) && MySqlPaging.Incremental(cfg)
    ensures var due := Due(table, cfg, cursor);
            && Sorted(due)
            && (due != [] ==> table != [] && table[|table| - 1] == due[|due| - 1])
            && (due != [] && Decoded(cursor).since.Some? ==> ReachesValue(due))
  {
    var Cursor(offset, since) := Decoded(cursor);
    var due := Due(table, cfg, cursor);
    AboveIsSuffix(table, since);
    RunRowsSorted(table, cfg, since);
    SuffixSorted(RunRows(table, cfg, since), offset);
    if due != [] {
      AboveMember(table, since, due[|due| - 1]);
    }
  }

  /** After the last page the stored cursor leaves exactly this due. */
  lemma DueAfterLastPage(table: seq<Row>, cfg: Config, cursor: Option<Cursor>)
    requires Good(table, cfg, cursor) && IsLast(table, cfg, cursor)
    ensures Due(table, cfg, Kept(cursor, Fetched(table, cfg, cursor))) == DueAgain(table, cfg, cursor)
  {
    var due, since := Due(table, cfg, cursor), Decoded(cursor).since;
    FetchedIsPage(table, cfg, cursor);
    if MySqlPaging.Incremental(cfg) {
      DueEndsTable(table, cfg, cursor);
      if ReachesValue(due) {
        NothingAbove(table, due, since);
      } else {
        SinceUnchanged(due, since);
        assert RunRows(table, cfg, since)[0..] == RunRows(table, cfg, since);
      }
    }
  }

  /**
    * The job is at its last page and either a mark is set and the run has rows, as many as fill whole pages, or no
    * mark is set, the page has rows, and no value comes with the last of them.
    */
  predicate EndsBadly(table: seq<Row>, cfg: Config, cursor: Option<Cursor>)
    requires cfg.batchSize >= 1
  {
    var Cursor(offset, since) := Decoded(cursor);
    var rows := RunRows(table, cfg, since);
    && |rows| - offset < cfg.batchSize
    && if since.Some? then rows != [] && |rows| % cfg.batchSize == 0
       else offset < |rows| && !(MySqlPaging.Incremental(cfg) && ReachesValue(rows))
  }

  lemma WholePages(n: nat, offset: nat, d: nat)
    requires d >= 1 && offset <= n < offset + d && offset % d == 0
    ensures n % d == 0 <==> n == offset
  {
    assert n == offset / d * d + (n - offset);
    RemainderUnique(n, d, offset / d, n - offset);
  }

  /** A page is due again after it has been queued and its cursor stored if and only if the job ends badly with it. */
  lemma RepeatsExactly(table: seq<Row>, cfg: Config, cursor: Option<Cursor>)
    requires Good(table, cfg, cursor)
    ensures Repeats(SourceOf(cfg), table, cursor) <==> EndsBadly(table, cfg, cursor)
  {
    var Cursor(offset, since) := Decoded(cursor);
    var rows, due := RunRows(table, cfg, since), Due(table, cfg, cursor);
    PageIsLawful(table, cfg, cursor);
    if IsLast(table, cfg, cursor) {
      FetchedIsPage(table, cfg, cursor);
      DueAfterLastPage(table, cfg, cursor);
      WholePages(|rows|, offset, cfg.batchSize);
      AppendChanges(due, DueAgain(table, cfg, cursor));
    } else {
      FetchedIsPage(table, cfg, cursor);
    }
  }

  lemma AppendChanges(rows: seq<Row>, more: seq<Row>)
    ensures rows + more == rows <==> more == []
  {
    assert |rows + more| == |rows| + |more|;
    assert more == [] ==> rows + more == rows;
  }

  // ---- Any number of jobs

  lemma StartIsGood(table: seq<Row>, cfg: Config)
    requires cfg.batchSize >= 1 && DistinctIds(table)
    requires MySqlPaging.Incremental(cfg) ==> Sorted(table) && AllOfKind(cfg, table)
    ensures Lawful(SourceOf(cfg)) && SourceOf(cfg).good(table, None)
  {
    SourceIsLawful(cfg);
    SmallMod(0, cfg.batchSize);
  }

  /**
    * Over any number of jobs in either mode, with rows added at any moment and jobs dropped or lost at any
    * page, every row has been queued or is still due at the stored cursor.
    */
  lemma NoRowMissed(table: seq<Row>, cfg: Config, actions: seq<Action<Row>>)
    requires cfg.batchSize >= 1 && DistinctIds(table)
    requires MySqlPaging.Incremental(cfg) ==> Sorted(table) && AllOfKind(cfg, table)
    requires CanRun(SourceOf(cfg), Start(table), actions)
    ensures var s := RunAll(SourceOf(cfg), Start(table), actions);
            && Good(s.table, cfg, s.sync.stored)
            && forall r <- s.table :: r in s.sync.queued || r in Due(s.table, cfg, s.sync.stored)
  {
    StartIsGood(table, cfg);
    StartHolds(SourceOf(cfg), table);
    NothingMissed(SourceOf(cfg), Start(table), actions);
  }

  /**
    * The actions of incremental jobs that may be dropped at any page, lose no records, and
    * do not end badly.
    */
  ghost predicate EndsWell(cfg: Config, s: System<Cursor, Row>, actions: seq<Action<Row>>)
    requires cfg.batchSize >= 1 && CanRun(SourceOf(cfg), s, actions)
    decreases |actions|
  {
    actions == [] ||
    var a := actions[0];
    && (a.Begin? ==> a.mode.Incremental?)
    && (a.Page? ==> !a.fate.Dies? && (a.fate.Lives? ==> !EndsBadly(s.table, cfg, s.sync.phase.cursor)))
    && EndsWell(cfg, Apply(SourceOf(cfg), s, a), actions[1..])
  }

  lemma {:induction false} EndsWellIsOrderly(cfg: Config, s: System<Cursor, Row>, actions: seq<Action<Row>>)
    requires cfg.batchSize >= 1 && Lawful(SourceOf(cfg)) && InOrder(SourceOf(cfg), s)
    requires CanRun(SourceOf(cfg), s, actions) && EndsWell(cfg, s, actions)
    ensures AllOrderly(SourceOf(cfg), s, actions)
    decreases |actions|
  {
    if actions == [] {
    } else {
      var src, a := SourceOf(cfg), actions[0];
      if a.Page? {
        RepeatsExactly(s.table, cfg, s.sync.stored);
      }
      ActionInOrder(src, s, a);
      EndsWellIsOrderly(cfg, Apply(src, s, a), actions[1..]);
    }
  }

  /** Then the queued rows are the front of the table, every row once and in order, and the rest is due. */
  lemma DeliveredOnce(table: seq<Row>, cfg: Config, actions: seq<Action<Row>>)
    requires cfg.batchSize >= 1 && DistinctIds(table)
    requires MySqlPaging.Incremental(cfg) ==> Sorted(table) && AllOfKind(cfg, table)
    requires CanRun(SourceOf(cfg), Start(table), actions) && EndsWell(cfg, Start(table), actions)
    ensures var s := RunAll(SourceOf(cfg), Start(table), actions);
            s.sync.queued + Due(s.table, cfg, s.sync.stored) == s.table && DistinctIds(s.table)
  {
    StartIsGood(table, cfg);
    StartHolds(SourceOf(cfg), table);
    EndsWellIsOrderly(cfg, Start(table), actions);
    QueuedInOrder(SourceOf(cfg), Start(table), actions);
  }

  // ---- Jobs that end badly

  function Times(rows: seq<Row>, n: nat): seq<Row> {
    if n == 0 then [] else Times(rows, n - 1) + rows
  }

  /** A whole incremental job over a table that does not change. */
  ghost function JobOn(table: seq<Row>, cfg: Config): Sync<Cursor, Row> -> Sync<Cursor, Row> {
    s => JobFrom(On(SourceOf(cfg), table), 0, |table| + 1, Begun(s, Mode.Incremental))
  }

  /** n jobs, one after the other. */
  function Jobs(job: Sync<Cursor, Row> -> Sync<Cursor, Row>, s: Sync<Cursor, Row>, n: nat): Sync<Cursor, Row> {
    if n == 0 then s else job(Jobs(job, s, n - 1))
  }

  /** The job queues these rows and leaves the cursor as it is. */
  ghost predicate Queues(job: Sync<Cursor, Row> -> Sync<Cursor, Row>, stored: Option<Cursor>, rows: seq<Row>) {
    forall queued :: job(Sync(stored, Idle, queued)) == Sync(stored, Idle, queued + rows)
  }

  lemma {:induction false} JobsQueue(job: Sync<Cursor, Row> -> Sync<Cursor, Row>, stored: Option<Cursor>,
        rows: seq<Row>, queued: seq<Row>, n: nat)
    requires Queues(job, stored, rows)
    ensures Jobs(job, Sync(stored, Idle, queued), n) == Sync(stored, Idle, queued + Times(rows, n))
  {
    if n == 0 {
      assert queued + [] == queued;
    } else {
      JobsQueue(job, stored, rows, queued, n - 1);
      assert queued + Times(rows, n - 1) + rows == queued + (Times(rows, n - 1) + rows);
    }
  }

  lemma {:induction false} JobStores(table: seq<Row>, cfg: Config, k: nat, end: nat, s: Sync<Cursor, Row>)
    requires Good(table, cfg, s.stored) && s.phase == At(s.stored)
    requires Decoded(s.stored).since.Some? && |RunRows(table, cfg, Decoded(s.stored).since)| % cfg.batchSize == 0
    requires k + |Due(table, cfg, s.stored)| < end
    ensures JobFrom(On(SourceOf(cfg), table), k, end, s).stored == Some(Cursor(0, Decoded(s.stored).since))
    decreases end - k
  {
    var Cursor(offset, since) := Decoded(s.stored);
    var rows := RunRows(table, cfg, since);
    FetchedIsPage(table, cfg, s.stored);
    PageIsLawful(table, cfg, s.stored);
    var s1 := AfterTurn(s, Answered(Fetched(table, cfg, s.stored)));
    if IsLast(table, cfg, s.stored) {
      WholePages(|rows|, offset, cfg.batchSize);
      assert s1.phase.Idle?;
    } else {
      JobStores(table, cfg, k + 1, end, s1);
    }
  }

  lemma JobRepeats(table: seq<Row>, cfg: Config, mark: Value, queued: seq<Row>)
    requires Good(table, cfg, Some(Cursor(0, Some(mark))))
    requires |RunRows(table, cfg, Some(mark))| % cfg.batchSize == 0
    ensures var s := Sync(Some(Cursor(0, Some(mark))), Idle, queued);
            JobOn(table, cfg)(s) == s.(queued := queued + RunRows(table, cfg, Some(mark)))
  {
    var rows := RunRows(table, cfg, Some(mark));
    var s := Begun(Sync(Some(Cursor(0, Some(mark))), Idle, queued), Mode.Incremental);
    SourceIsLawful(cfg);
    AboveIsSuffix(table, Some(mark));
    assert rows[0..] == rows;
    JobDelivers(SourceOf(cfg), table, 0, |table| + 1, s);
    JobStores(table, cfg, 0, |table| + 1, s);
  }

  /** With a mark set and rows that fill whole pages, every job queues all of them again, and the mark never moves. */
  lemma RepeatsForEver(table: seq<Row>, cfg: Config, mark: Value, queued: seq<Row>, n: nat)
    requires Good(table, cfg, Some(Cursor(0, Some(mark))))
    requires |RunRows(table, cfg, Some(mark))| % cfg.batchSize == 0
    ensures var s := Sync(Some(Cursor(0, Some(mark))), Idle, queued);
            Jobs(JobOn(table, cfg), s, n) == s.(queued := queued + Times(RunRows(table, cfg, Some(mark)), n))
  {
    var stored := Some(Cursor(0, Some(mark)));
    forall q
      ensures JobOn(table, cfg)(Sync(stored, Idle, q)) == Sync(stored, Idle, q + RunRows(table, cfg, Some(mark)))
    {
      JobRepeats(table, cfg, mark, q);
    }
    JobsQueue(JobOn(table, cfg), stored, RunRows(table, cfg, Some(mark)), queued, n);
  }

  /** A concrete table: the mark is 4, one row is above it, and pages hold one row. */
  lemma OneRowRepeats(cfg: Config, n: nat)
    requires MySqlPaging.Incremental(cfg) && cfg.batchSize == 1 && cfg.numbers
    ensures var table := [Row(1, Some(Number(4.0))), Row(2, Some(Number(5.0)))];
            var s := Sync(Some(Cursor(0, Some(Number(4.0)))), Idle, [table[0]]);
            Good(table, cfg, s.stored) &&
            Jobs(JobOn(table, cfg), s, n) == s.(queued := [table[0]] + Times([table[1]], n))
  {
    var low, high := Row(1, Some(Number(4.0))), Row(2, Some(Number(5.0)));
    var table := [low, high];
    assert table[..1] == [low] && [low][..0] == [];
    assert Above([low], low.col) == [];
    assert Above(table, low.col) == [high];
    assert low in table;
    RepeatsForEver(table, cfg, Number(4.0), [low], n);
  }
}
