/** Incremental paging of the Postgres connector under the sync job that stores its cursors. */
module PostgresSync {
  import opened Wrappers
  import opened PostgresPaging
  import opened SyncJob

  /** What `fetchBatchIncremental` returns to the job; None where it throws. */
  function Returned(outcome: IncrementalOutcome): Option<Batch<Cursor, Item>> {
    match outcome
    case IncrementalBatch(records, nextCursor, hasMore) => Some(Batch(records, nextCursor, hasMore))
    case _ => None
  }

  /**
    * Tables that paging gets through: the proxy honours `cursor_last_id` and the connector tells the keys of a
    * group apart, or it ignores it, groups are smaller than a page, and keys are compared as they are ordered.
    */
  ghost predicate Pageable(table: seq<Item>, batchSize: nat, honours: bool) {
    && Ordered(table)
    && if honours then Distinguished(table) else Comparable(table) && SmallGroups(table, batchSize)
  }

  /** Tables of which only the keys are known to ascend within each group; groups are small where the proxy ignores. */
  ghost predicate Keyed(table: seq<Item>, batchSize: nat, honours: bool) {
    Ordered(table) && KeysAscend(table) && (honours || SmallGroups(table, batchSize))
  }

  lemma KeyedIsPageable(table: seq<Item>, batchSize: nat, honours: bool)
    requires Keyed(table, batchSize, honours)
    ensures Pageable(table, batchSize, honours)
  {
    KeysAscendCompare(table);
  }

  /** The cursor stands behind the first k rows. */
  ghost predicate Behind(table: seq<Item>, cursor: Option<Cursor>, k: nat) {
    k <= |table| && cursor == CursorAt(table, k)
  }

  /** The rows behind a cursor. */
  function RowsBehind(table: seq<Item>, cursor: Option<Cursor>): seq<Item> {
    table[FirstAsked(table, cursor, true, 0)..]
  }

  /** Rows may be added that leave the table pageable, which are rows beyond all present ones. */
  ghost function SourceOf(batchSize: nat, honours: bool): Source<Cursor, Item> {
    Source(
      (table, cursor) => Returned(Pages(table, batchSize, honours)(cursor)),
      (table, row) => Pageable(table + [row], batchSize, honours),
      (table, cursor) => Pageable(table, batchSize, honours) && exists k: nat :: Behind(table, cursor, k),
      (table, cursor) => RowsBehind(table, cursor))
  }

  function StopOf(table: seq<Item>, batchSize: nat, honours: bool): nat -> nat {
    if honours then HonouringStop(batchSize) else IgnoringStop(table, batchSize)
  }

  lemma PageAdvancesAt(table: seq<Item>, batchSize: nat, honours: bool, k: nat)
    requires batchSize >= 1 && Pageable(table, batchSize, honours) && k <= |table|
    ensures Advances(Pages(table, batchSize, honours), table, StopOf(table, batchSize, honours), k)
    ensures RowsBehind(table, CursorAt(table, k)) == table[k..]
  {
    HonouredStart(table, k);
    if honours {
      HonouringPage(table, batchSize, k);
    } else {
      IgnoringAdvances(table, batchSize, k);
    }
  }

  /** The page behind the first k rows. */
  function PageBehind(table: seq<Item>, k: nat, stop: nat): Batch<Cursor, Item>
    requires k <= |table| && k < stop
  {
    if stop <= |table| then Batch(table[k..stop], CursorAt(table, stop), true)
    else Batch(table[k..], EndCursor(table, k), false)
  }

  lemma FetchedBehind(table: seq<Item>, batchSize: nat, honours: bool, k: nat)
    requires batchSize >= 1 && Pageable(table, batchSize, honours) && k <= |table|
    ensures var stop := StopOf(table, batchSize, honours)(k);
            && k < stop
            && SourceOf(batchSize, honours).fetch(table, CursorAt(table, k)) == Some(PageBehind(table, k, stop))
  {
    PageAdvancesAt(table, batchSize, honours, k);
  }

  /** A page keeps the law, and once its cursor is stored it is not due again. */
  lemma PageIsLawful(table: seq<Item>, batchSize: nat, honours: bool, cursor: Option<Cursor>)
    requires batchSize >= 1 && SourceOf(batchSize, honours).good(table, cursor)
    ensures PageLaw(SourceOf(batchSize, honours), table, cursor)
    ensures !Repeats(SourceOf(batchSize, honours), table, cursor)
  {
    var k: nat :| Behind(table, cursor, k);
    var stop := StopOf(table, batchSize, honours)(k);
    FetchedBehind(table, batchSize, honours, k);
    var next := if stop <= |table| then stop else |table|;
    PageAdvancesAt(table, batchSize, honours, k);
    PageAdvancesAt(table, batchSize, honours, next);
    SliceJoins(table, k, next);
    assert Behind(table, CursorAt(table, next), next);
  }

  lemma BehindGrows(table: seq<Item>, cursor: Option<Cursor>, k: nat, row: Item)
    requires Behind(table, cursor, k)
    ensures Behind(table + [row], cursor, k)
    ensures (table + [row])[k..] == table[k..] + [row]
  {
    assert k > 0 ==> (table + [row])[k - 1] == table[k - 1];
  }

  lemma RowIsBehind(table: seq<Item>, batchSize: nat, honours: bool, cursor: Option<Cursor>, row: Item)
    requires batchSize >= 1 && SourceOf(batchSize, honours).good(table, cursor)
    requires Pageable(table + [row], batchSize, honours)
    ensures GrowthLaw(SourceOf(batchSize, honours), table, cursor, row)
  {
    var k: nat :| Behind(table, cursor, k);
    BehindGrows(table, cursor, k, row);
    PageAdvancesAt(table, batchSize, honours, k);
    PageAdvancesAt(table + [row], batchSize, honours, k);
  }

  lemma SourceIsLawful(batchSize: nat, honours: bool)
    requires batchSize >= 1
    ensures Lawful(SourceOf(batchSize, honours))
  {
    var src := SourceOf(batchSize, honours);
    forall table, cursor | src.good(table, cursor)
      ensures PageLaw(src, table, cursor)
      ensures src.good(table, None) && src.due(table, None) == table
    {
      PageIsLawful(table, batchSize, honours, cursor);
      PageAdvancesAt(table, batchSize, honours, 0);
      assert Behind(table, None, 0) && table[0..] == table;
    }
    forall table, cursor, row | src.good(table, cursor) && src.fits(table, row)
      ensures GrowthLaw(src, table, cursor, row)
    {
      RowIsBehind(table, batchSize, honours, cursor, row);
    }
  }

  lemma StartIsGood(table: seq<Item>, batchSize: nat, honours: bool)
    requires batchSize >= 1 && Pageable(table, batchSize, honours)
    ensures Lawful(SourceOf(batchSize, honours)) && SourceOf(batchSize, honours).good(table, None)
  {
    SourceIsLawful(batchSize, honours);
    assert Behind(table, None, 0);
  }

  /** Over any number of jobs in either mode, dropped and lost ones included, no row is missed. */
  lemma NoRowMissed(table: seq<Item>, batchSize: nat, honours: bool, actions: seq<Action<Item>>)
    requires batchSize >= 1 && Pageable(table, batchSize, honours)
    requires CanRun(SourceOf(batchSize, honours), Start(table), actions)
    ensures var s := RunAll(SourceOf(batchSize, honours), Start(table), actions);
            forall r <- s.table :: r in s.sync.queued || r in RowsBehind(s.table, s.sync.stored)
  {
    var src := SourceOf(batchSize, honours);
    StartIsGood(table, batchSize, honours);
    StartHolds(src, table);
    NothingMissed(src, Start(table), actions);
  }

  /** The actions of incremental jobs that may be dropped at any turn but lose no records. */
  predicate Incremental(actions: seq<Action<Item>>) {
    forall a <- actions :: (a.Begin? ==> a.mode.Incremental?) && (a.Page? ==> !a.fate.Dies?)
  }

  lemma {:induction false} IncrementalIsOrderly(batchSize: nat, honours: bool, s: System<Cursor, Item>,
        actions: seq<Action<Item>>)
    requires batchSize >= 1 && Lawful(SourceOf(batchSize, honours)) && InOrder(SourceOf(batchSize, honours), s)
    requires CanRun(SourceOf(batchSize, honours), s, actions) && Incremental(actions)
    ensures AllOrderly(SourceOf(batchSize, honours), s, actions)
    decreases |actions|
  {
    if actions == [] {
    } else {
      var src, a := SourceOf(batchSize, honours), actions[0];
      if a.Page? {
        PageIsLawful(s.table, batchSize, honours, s.sync.stored);
      }
      ActionInOrder(src, s, a);
      IncrementalIsOrderly(batchSize, honours, Apply(src, s, a), actions[1..]);
    }
  }

  /**
    * Over any number of incremental jobs, with rows added beyond all present ones at any time and jobs dropped at
    * any turn, the queued rows are the front of the table: every row once, in order. What is left is behind
    * the stored cursor, which is the position of the last queued row.
    */
  lemma EveryRowOnce(table: seq<Item>, batchSize: nat, honours: bool, actions: seq<Action<Item>>)
    requires batchSize >= 1 && Pageable(table, batchSize, honours)
    requires CanRun(SourceOf(batchSize, honours), Start(table), actions) && Incremental(actions)
    ensures var s := RunAll(SourceOf(batchSize, honours), Start(table), actions);
            && s.sync.queued + RowsBehind(s.table, s.sync.stored) == s.table
            && s.sync.stored == CursorAt(s.table, |s.sync.queued|)
  {
    var src := SourceOf(batchSize, honours);
    StartIsGood(table, batchSize, honours);
    StartHolds(src, table);
    IncrementalIsOrderly(batchSize, honours, Start(table), actions);
    QueuedInOrder(src, Start(table), actions);
    var s := RunAll(src, Start(table), actions);
    var k: nat :| Behind(s.table, s.sync.stored, k);
    PageAdvancesAt(s.table, batchSize, honours, k);
    assert |s.sync.queued| == k;
  }

  /**
    * A whole incremental job from any place queues exactly the rows behind its cursor and stores the position of
    * the last row of the table. If there are no such rows, nothing is queued and the position stays as it was.
    */
  lemma JobStores(table: seq<Item>, batchSize: nat, honours: bool, end: nat, s: Sync<Cursor, Item>, k: nat)
    requires batchSize >= 1 && Pageable(table, batchSize, honours) && Behind(table, s.stored, k)
    requires |table| - k < end
    ensures JobFrom(On(SourceOf(batchSize, honours), table), 0, end, Begun(s, Mode.Incremental)) ==
            Sync(CursorAt(table, |table|), Idle, s.queued + table[k..])
  {
    var src := SourceOf(batchSize, honours);
    SourceIsLawful(batchSize, honours);
    PageAdvancesAt(table, batchSize, honours, k);
    JobDelivers(src, table, 0, end, Begun(s, Mode.Incremental));
    JobMoves(table, batchSize, honours, 0, end, Begun(s, Mode.Incremental), k);
  }

  lemma {:induction false} JobMoves(table: seq<Item>, batchSize: nat, honours: bool, n: nat, end: nat,
        s: Sync<Cursor, Item>, k: nat)
    requires batchSize >= 1 && Pageable(table, batchSize, honours) && Behind(table, s.stored, k)
    requires s.phase == At(s.stored) && n + |table| - k < end
    ensures JobFrom(On(SourceOf(batchSize, honours), table), n, end, s).stored == CursorAt(table, |table|)
    decreases end - n
  {
    var stop := StopOf(table, batchSize, honours)(k);
    PageAdvancesAt(table, batchSize, honours, k);
    var s1 := AfterTurn(s, TurnOf(SourceOf(batchSize, honours), table, s.stored, Lives));
    if stop > |table| {
      assert s1.phase.Idle? && s1.stored == CursorAt(table, |table|);
    } else {
      JobMoves(table, batchSize, honours, n + 1, end, s1, stop);
    }
  }

  // ---- The same where only the keys are known to ascend

  /** The connector on tables to which rows may be added that keep the keys ascending. */
  ghost function KeyedSource(batchSize: nat, honours: bool): Source<Cursor, Item> {
    var src := SourceOf(batchSize, honours);
    Source(
      src.fetch,
      (table, row) => Keyed(table + [row], batchSize, honours),
      (table, cursor) => Keyed(table, batchSize, honours) && src.good(table, cursor),
      src.due)
  }

  lemma KeyedIsLawful(batchSize: nat, honours: bool)
    requires batchSize >= 1
    ensures Lawful(KeyedSource(batchSize, honours))
  {
    var src, keyed := SourceOf(batchSize, honours), KeyedSource(batchSize, honours);
    SourceIsLawful(batchSize, honours);
    forall table, cursor | keyed.good(table, cursor)
      ensures PageLaw(keyed, table, cursor)
      ensures keyed.good(table, None) && keyed.due(table, None) == table
    {
      assert PageLaw(src, table, cursor);
    }
    forall table, cursor, row | keyed.good(table, cursor) && keyed.fits(table, row)
      ensures GrowthLaw(keyed, table, cursor, row)
    {
      KeyedIsPageable(table + [row], batchSize, honours);
      assert src.fits(table, row) && GrowthLaw(src, table, cursor, row);
    }
  }

  lemma {:induction false} KeyedIsOrderly(batchSize: nat, honours: bool, s: System<Cursor, Item>,
        actions: seq<Action<Item>>)
    requires batchSize >= 1 && Lawful(KeyedSource(batchSize, honours)) && InOrder(KeyedSource(batchSize, honours), s)
    requires CanRun(KeyedSource(batchSize, honours), s, actions) && Incremental(actions)
    ensures AllOrderly(KeyedSource(batchSize, honours), s, actions)
    decreases |actions|
  {
    if actions == [] {
    } else {
      var src, a := KeyedSource(batchSize, honours), actions[0];
      if a.Page? {
        PageIsLawful(s.table, batchSize, honours, s.sync.stored);
        assert !Repeats(SourceOf(batchSize, honours), s.table, s.sync.stored);
      }
      ActionInOrder(src, s, a);
      KeyedIsOrderly(batchSize, honours, Apply(src, s, a), actions[1..]);
    }
  }

  /** Whatever the keys are, numbers or texts: as long as they ascend, every row is queued once, in order. */
  lemma EveryKeyedRowOnce(table: seq<Item>, batchSize: nat, honours: bool, actions: seq<Action<Item>>)
    requires batchSize >= 1 && Keyed(table, batchSize, honours)
    requires CanRun(KeyedSource(batchSize, honours), Start(table), actions) && Incremental(actions)
    ensures var s := RunAll(KeyedSource(batchSize, honours), Start(table), actions);
            && s.sync.queued + RowsBehind(s.table, s.sync.stored) == s.table
            && s.sync.stored == CursorAt(s.table, |s.sync.queued|)
  {
    var src := KeyedSource(batchSize, honours);
    KeyedIsPageable(table, batchSize, honours);
    StartIsGood(table, batchSize, honours);
    KeyedIsLawful(batchSize, honours);
    StartHolds(src, table);
    KeyedIsOrderly(batchSize, honours, Start(table), actions);
    QueuedInOrder(src, Start(table), actions);
    var s := RunAll(src, Start(table), actions);
    var k: nat :| Behind(s.table, s.sync.stored, k);
    KeyedIsPageable(s.table, batchSize, honours);
    PageAdvancesAt(s.table, batchSize, honours, k);
    assert |s.sync.queued| == k;
  }
}
