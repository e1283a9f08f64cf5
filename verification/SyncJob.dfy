/** The sync job of services/ingestion/src/services/sync-service.ts and its stored cursor. */
module SyncJob {
  import opened Wrappers

  datatype Mode = Full | Incremental

  /** What `fetchBatch` of a connector returns. */
  datatype Batch<+C, +R> = Batch(records: seq<R>, nextCursor: Option<C>, hasMore: bool)

  /** How one turn of the loop over the pages ends. */
  datatype Turn<+C, +R> =
    | Answered(batch: Batch<C, R>)
    | Dropped                        // cancelled, the batch queue is full, or `fetchBatch` throws: nothing is queued
    | Lost(batch: Batch<C, R>)       // the process ends after queueing the batch and before storing its cursor

  /** Between jobs, or in a job that asks for its next page with a cursor. */
  datatype Phase<+C> = Idle | At(cursor: Option<C>)

  /** `stored` is `sync_state.last_cursor`; `queued` is what has been queued for the raw table, oldest first. */
  datatype Sync<+C, +R> = Sync(stored: Option<C>, phase: Phase<C>, queued: seq<R>)

  // ---- The steps of a job

  function Begun<C, R>(s: Sync<C, R>, mode: Mode): Sync<C, R> {
    s.(phase := At(if mode.Incremental? then s.stored else None))
  }

  /** The cursor that is stored after a page: a null cursor does not replace it. */
  function Kept<C, R>(stored: Option<C>, batch: Batch<C, R>): Option<C> {
    if batch.nextCursor.Some? then batch.nextCursor else stored
  }

  function AfterTurn<C, R>(s: Sync<C, R>, turn: Turn<C, R>): Sync<C, R> {
    match turn
    case Answered(batch) =>
      Sync(Kept(s.stored, batch), if batch.hasMore then At(batch.nextCursor) else Idle, s.queued + batch.records)
    case Dropped => s.(phase := Idle)
    case Lost(batch) => s.(phase := Idle, queued := s.queued + batch.records)
  }

  /** The rest of a job before turn n, in a process that ends before turn `end`. */
  function JobFrom<C, R>(connector: (nat, Option<C>) -> Turn<C, R>, n: nat, end: nat, s: Sync<C, R>): Sync<C, R>
    requires n <= end
    decreases end - n
  {
    if s.phase.Idle? then s
    else if n == end then AfterTurn(s, Dropped)
    else JobFrom(connector, n + 1, end, AfterTurn(s, connector(n, s.phase.cursor)))
  }

  /** The worker of a connector, with the two things that outlive its jobs. */
  class Worker<C, R> {
    var lastCursor: Option<C>    // sync_state.last_cursor
    var queue: seq<R>            // the records of all batch jobs

    constructor ()
      ensures lastCursor == None && queue == []
    {
      lastCursor, queue := None, [];
    }

    function Between(): Sync<C, R>
      reads this
    {
      Sync(lastCursor, Idle, queue)
    }

    /** `processSyncJob` in a process that ends before turn `end`. */
    method ProcessSyncJob(mode: Mode, connector: (nat, Option<C>) -> Turn<C, R>, end: nat)
      modifies this
      ensures Between() == JobFrom(connector, 0, end, Begun(old(Between()), mode))
    {
      var cursor: Option<C> := None;
      if mode.Incremental? {
        cursor := lastCursor;
      }
      var hasMore, n := true, 0;
      while hasMore && n < end
        invariant n <= end
        invariant JobFrom(connector, 0, end, Begun(old(Between()), mode)) ==
                  JobFrom(connector, n, end, Sync(lastCursor, if hasMore then At(cursor) else Idle, queue))
      {
        match connector(n, cursor) {
          case Dropped =>
            return;
          case Lost(batch) =>
            queue := queue + batch.records;
            return;
          case Answered(batch) =>
            if |batch.records| > 0 {
              queue := queue + batch.records;
            }
            assert batch.records == [] ==> queue + batch.records == queue;
            cursor, hasMore := batch.nextCursor, batch.hasMore;
            if cursor.Some? {
              lastCursor := cursor;
            }
        }
        n := n + 1;
      }
    }
  }

  // ---- Jobs over a table that grows

  /**
    * A connector on its table: `fetch` is None where it throws, and `fits` says which rows may be
    * added to the end of the table. For the proofs `good` holds of the cursors that it can
    * come to, and `due` is the part of the table behind a cursor.
    */
  datatype Source<!C, !R> = Source(
    fetch: (seq<R>, Option<C>) -> Option<Batch<C, R>>,
    fits: (seq<R>, R) -> bool,
    good: (seq<R>, Option<C>) -> bool,
    due: (seq<R>, Option<C>) -> seq<R>)

  datatype System<C, R> = System(table: seq<R>, sync: Sync<C, R>)

  datatype Fate = Lives | Drops | Dies

  datatype Action<R> = Begin(mode: Mode) | Page(fate: Fate) | Insert(row: R)

  function TurnOf<C, R>(src: Source<C, R>, table: seq<R>, cursor: Option<C>, fate: Fate): Turn<C, R> {
    match src.fetch(table, cursor)
    case None => Dropped
    case Some(batch) =>
      match fate
      case Lives => Answered(batch)
      case Drops => Dropped
      case Dies => Lost(batch)
  }

  predicate Enabled<C, R>(src: Source<C, R>, s: System<C, R>, a: Action<R>) {
    match a
    case Begin(_) => s.sync.phase.Idle?
    case Page(_) => s.sync.phase.At?
    case Insert(row) => src.fits(s.table, row)
  }

  function Apply<C, R>(src: Source<C, R>, s: System<C, R>, a: Action<R>): System<C, R>
    requires Enabled(src, s, a)
  {
    match a
    case Begin(mode) => s.(sync := Begun(s.sync, mode))
    case Page(fate) => s.(sync := AfterTurn(s.sync, TurnOf(src, s.table, s.sync.phase.cursor, fate)))
    case Insert(row) => s.(table := s.table + [row])
  }

  predicate CanRun<C, R>(src: Source<C, R>, s: System<C, R>, actions: seq<Action<R>>)
    decreases |actions|
  {
    actions == [] || (Enabled(src, s, actions[0]) && CanRun(src, Apply(src, s, actions[0]), actions[1..]))
  }

  function RunAll<C, R>(src: Source<C, R>, s: System<C, R>, actions: seq<Action<R>>): System<C, R>
    requires CanRun(src, s, actions)
    decreases |actions|
  {
    if actions == [] then s else RunAll(src, Apply(src, s, actions[0]), actions[1..])
  }

  function Start<C, R>(table: seq<R>): System<C, R> {
    System(table, Sync(None, Idle, []))
  }

  // ---- What a connector must keep

  /** A page is the front of what is due, the next cursor stands behind it, and only the last page is not followed. */
  ghost predicate PageLaw<C, R>(src: Source<C, R>, table: seq<R>, cursor: Option<C>) {
    src.fetch(table, cursor).Some? &&
    var batch := src.fetch(table, cursor).value;
    && (batch.nextCursor.Some? ==> src.good(table, batch.nextCursor))
    && if batch.hasMore
       then batch.nextCursor.Some? && batch.records != [] &&
            batch.records + src.due(table, batch.nextCursor) == src.due(table, cursor)
       else batch.records == src.due(table, cursor)
  }

  ghost predicate GrowthLaw<C, R>(src: Source<C, R>, table: seq<R>, cursor: Option<C>, row: R) {
    src.good(table + [row], cursor) && src.due(table + [row], cursor) == src.due(table, cursor) + [row]
  }

  ghost predicate Lawful<C(!new), R(!new)>(src: Source<C, R>) {
    && (forall table, cursor :: src.good(table, cursor) ==> src.good(table, None) && src.due(table, None) == table)
    && (forall table, cursor :: src.good(table, cursor) ==> PageLaw(src, table, cursor))
    && (forall table, cursor, row ::
          src.good(table, cursor) && src.fits(table, row) ==> GrowthLaw(src, table, cursor, row))
  }

  // ---- Nothing is missed

  ghost predicate Covered<C, R>(src: Source<C, R>, table: seq<R>, cursor: Option<C>, queued: seq<R>) {
    && src.good(table, cursor)
    && forall r <- table :: r in queued || r in src.due(table, cursor)
  }

  /** Every row has been queued or will be, by the job that runs and also by one that resumes at the stored cursor. */
  ghost predicate MissesNothing<C, R>(src: Source<C, R>, s: System<C, R>) {
    && Covered(src, s.table, s.sync.stored, s.sync.queued)
    && (s.sync.phase.At? ==> Covered(src, s.table, s.sync.phase.cursor, s.sync.queued))
  }

  lemma PageCovers<C(!new), R(!new)>(src: Source<C, R>, table: seq<R>, cursor: Option<C>, queued: seq<R>)
    requires Lawful(src) && Covered(src, table, cursor, queued)
    ensures var batch := src.fetch(table, cursor).value;
            && (batch.nextCursor.Some? ==> Covered(src, table, batch.nextCursor, queued + batch.records))
            && (!batch.hasMore ==> forall r <- table :: r in queued + batch.records)
  {
    assert PageLaw(src, table, cursor);
    var batch := src.fetch(table, cursor).value;
    if batch.nextCursor.Some? && batch.hasMore {
      forall r <- table
        ensures r in queued + batch.records || r in src.due(table, batch.nextCursor)
      {
        assert r in src.due(table, cursor) ==> r in batch.records + src.due(table, batch.nextCursor);
      }
    }
  }

  lemma ActionMissesNothing<C(!new), R(!new)>(src: Source<C, R>, s: System<C, R>, a: Action<R>)
    requires Lawful(src) && MissesNothing(src, s) && Enabled(src, s, a)
    ensures MissesNothing(src, Apply(src, s, a))
  {
    match a
    case Begin(_) =>
      assert src.good(s.table, None) && src.due(s.table, None) == s.table;
    case Page(_) =>
      PageCovers(src, s.table, s.sync.phase.cursor, s.sync.queued);
      assert PageLaw(src, s.table, s.sync.phase.cursor);
    case Insert(row) =>
      assert GrowthLaw(src, s.table, s.sync.stored, row);
      if s.sync.phase.At? {
        assert GrowthLaw(src, s.table, s.sync.phase.cursor, row);
      }
  }

  /**
    * Over any number of jobs in either mode, with rows added at any time and jobs dropped or lost at any
    * turn, no row is missed: it has been queued, or a job that resumes at the stored cursor will queue it.
    */
  lemma {:induction false} NothingMissed<C(!new), R(!new)>(src: Source<C, R>, s: System<C, R>, actions: seq<Action<R>>)
    requires Lawful(src) && MissesNothing(src, s) && CanRun(src, s, actions)
    ensures MissesNothing(src, RunAll(src, s, actions))
    decreases |actions|
  {
    if actions == [] {
    } else {
      ActionMissesNothing(src, s, actions[0]);
      NothingMissed(src, Apply(src, s, actions[0]), actions[1..]);
    }
  }

  // ---- Everything is queued once, in order

  /** The queued rows are the front of the table, and what is due behind the stored cursor is the rest. */
  ghost predicate InOrder<C, R>(src: Source<C, R>, s: System<C, R>) {
    && src.good(s.table, s.sync.stored)
    && s.sync.queued + src.due(s.table, s.sync.stored) == s.table
    && (s.sync.phase.At? ==> s.sync.phase.cursor == s.sync.stored)
  }

  /** The page is due again after it has been queued and its cursor stored. */
  ghost predicate Repeats<C, R>(src: Source<C, R>, table: seq<R>, cursor: Option<C>) {
    src.fetch(table, cursor).Some? &&
    var batch := src.fetch(table, cursor).value;
    batch.records + src.due(table, Kept(cursor, batch)) != src.due(table, cursor)
  }

  /** No full sync of a table of which something is stored, no records lost, and no page that is due again. */
  ghost predicate Orderly<C, R>(src: Source<C, R>, s: System<C, R>, a: Action<R>)
    requires Enabled(src, s, a)
  {
    match a
    case Begin(mode) => mode.Incremental? || s.sync.stored.None?
    case Page(Lives) => !Repeats(src, s.table, s.sync.phase.cursor)
    case Page(Dies) => src.fetch(s.table, s.sync.phase.cursor).Some? ==>
                       src.fetch(s.table, s.sync.phase.cursor).value.records == []
    case _ => true
  }

  ghost predicate AllOrderly<C, R>(src: Source<C, R>, s: System<C, R>, actions: seq<Action<R>>)
    requires CanRun(src, s, actions)
    decreases |actions|
  {
    actions == [] || (Orderly(src, s, actions[0]) && AllOrderly(src, Apply(src, s, actions[0]), actions[1..]))
  }

  /** An action keeps the order if and only if it is orderly. */
  lemma ActionInOrder<C(!new), R(!new)>(src: Source<C, R>, s: System<C, R>, a: Action<R>)
    requires Lawful(src) && InOrder(src, s) && Enabled(src, s, a)
    ensures InOrder(src, Apply(src, s, a)) <==> Orderly(src, s, a)
  {
    var queued, due := s.sync.queued, src.due(s.table, s.sync.stored);
    match a
    case Begin(_) =>
    case Page(_) =>
      assert PageLaw(src, s.table, s.sync.stored);
      var batch := src.fetch(s.table, s.sync.stored).value;
      SameFront(queued, batch.records, src.due(s.table, Kept(s.sync.stored, batch)), due);
      SameFront(queued, batch.records, due, due);
    case Insert(row) =>
      assert GrowthLaw(src, s.table, s.sync.stored, row);
      assert queued + (due + [row]) == queued + due + [row];
  }

  lemma SameFront<R>(front: seq<R>, a: seq<R>, b: seq<R>, c: seq<R>)
    ensures front + a + b == front + c <==> a + b == c
    ensures a + c == c ==> a == []
  {
    assert front + a + b == front + (a + b);
    assert (front + (a + b))[|front|..] == a + b && (front + c)[|front|..] == c;
    assert |a + c| == |a| + |c|;
  }

  /** Then what has been queued is at all times the front of the table: every row once, in the order of the table. */
  lemma {:induction false} QueuedInOrder<C(!new), R(!new)>(src: Source<C, R>, s: System<C, R>, actions: seq<Action<R>>)
    requires Lawful(src) && InOrder(src, s) && CanRun(src, s, actions) && AllOrderly(src, s, actions)
    ensures InOrder(src, RunAll(src, s, actions))
    decreases |actions|
  {
    if actions == [] {
    } else {
      ActionInOrder(src, s, actions[0]);
      QueuedInOrder(src, Apply(src, s, actions[0]), actions[1..]);
    }
  }

  lemma StartHolds<C(!new), R(!new)>(src: Source<C, R>, table: seq<R>)
    requires Lawful(src) && src.good(table, None)
    ensures MissesNothing(src, Start(table)) && InOrder(src, Start(table))
  {
    assert [] + table == table;
  }

  // ---- Whole jobs

  /** The connector of a job over a table that does not change. */
  function On<C, R>(src: Source<C, R>, table: seq<R>): (nat, Option<C>) -> Turn<C, R> {
    (n: nat, cursor) => TurnOf(src, table, cursor, Lives)
  }

  /** A job that is given enough turns queues exactly what is due behind its cursor, in order, and ends. */
  lemma {:induction false} JobDelivers<C(!new), R(!new)>(src: Source<C, R>, table: seq<R>, n: nat, end: nat,
        s: Sync<C, R>)
    requires Lawful(src) && s.phase.At? && src.good(table, s.phase.cursor)
    requires n + |src.due(table, s.phase.cursor)| < end
    ensures var s' := JobFrom(On(src, table), n, end, s);
            s'.phase.Idle? && s'.queued == s.queued + src.due(table, s.phase.cursor)
    decreases end - n
  {
    assert PageLaw(src, table, s.phase.cursor);
    var batch := src.fetch(table, s.phase.cursor).value;
    var s1 := AfterTurn(s, Answered(batch));
    if !batch.hasMore {
      assert s1.phase.Idle?;
    } else {
      var rest := src.due(table, batch.nextCursor);
      JobDelivers(src, table, n + 1, end, s1);
      assert s.queued + (batch.records + rest) == s.queued + batch.records + rest;
    }
  }

  /** A full job with enough turns queues the whole table, an incremental one what is due behind the stored cursor. */
  lemma WholeJob<C(!new), R(!new)>(src: Source<C, R>, table: seq<R>, end: nat, stored: Option<C>, queued: seq<R>)
    requires Lawful(src) && src.good(table, stored)
    requires |table| < end && |src.due(table, stored)| < end
    ensures var full := JobFrom(On(src, table), 0, end, Begun(Sync(stored, Idle, queued), Full));
            full.phase.Idle? && full.queued == queued + table
    ensures var rest := JobFrom(On(src, table), 0, end, Begun(Sync(stored, Idle, queued), Incremental));
            rest.phase.Idle? && rest.queued == queued + src.due(table, stored)
  {
    assert src.good(table, None) && src.due(table, None) == table;
    JobDelivers(src, table, 0, end, Begun(Sync(stored, Idle, queued), Full));
    JobDelivers(src, table, 0, end, Begun(Sync(stored, Idle, queued), Incremental));
  }

  /** The table grows from one state to the other by rows that fit. */
  ghost predicate GrowsTo<C, R>(src: Source<C, R>, table: seq<R>, table': seq<R>) {
    table <= table' && forall i {:trigger table'[i]} | |table| <= i < |table'| :: src.fits(table'[..i], table'[i])
  }

  function Inserts<R>(rows: seq<R>): (actions: seq<Action<R>>)
    ensures |actions| == |rows|
  {
    seq(|rows|, i requires 0 <= i < |rows| => Insert(rows[i]))
  }

  lemma {:induction false} InsertsRun<C, R>(src: Source<C, R>, s: System<C, R>, table': seq<R>, more: seq<Action<R>>)
    requires GrowsTo(src, s.table, table') && CanRun(src, s.(table := table'), more)
    ensures var actions := Inserts(table'[|s.table|..]) + more;
            CanRun(src, s, actions) && RunAll(src, s, actions) == RunAll(src, s.(table := table'), more)
    decreases |table'| - |s.table|
  {
    var n := |s.table|;
    var actions := Inserts(table'[n..]) + more;
    if n == |table'| {
      assert table' == s.table && actions == more;
    } else {
      var s1 := s.(table := s.table + [table'[n]]);
      assert table'[..n] == s.table && table'[..n + 1] == s1.table;
      assert actions[0] == Insert(table'[n]);
      assert actions[1..] == Inserts(table'[n + 1..]) + more;
      InsertsRun(src, s1, table', more);
    }
  }

  /** A job whose page n is read from tables(n), and its fate at each turn. */
  function Over<C, R>(src: Source<C, R>, tables: nat -> seq<R>, fates: nat -> Fate): (nat, Option<C>) -> Turn<C, R> {
    (n: nat, cursor) => TurnOf(src, tables(n), cursor, fates(n))
  }

  /** Every job over a growing table, whatever becomes of it, is a sequence of actions. */
  lemma {:induction false} JobIsActions<C, R>(src: Source<C, R>, tables: nat -> seq<R>, fates: nat -> Fate,
        n: nat, end: nat, s: System<C, R>)
    returns (actions: seq<Action<R>>)
    requires n <= end && GrowsTo(src, s.table, tables(n))
    requires forall m: nat :: GrowsTo(src, tables(m), tables(m + 1))
    ensures CanRun(src, s, actions)
    ensures RunAll(src, s, actions).sync == JobFrom(Over(src, tables, fates), n, end, s.sync)
    decreases end - n
  {
    if s.sync.phase.Idle? {
      actions := [];
    } else if n == end {
      actions := [Page(Drops)];
      assert actions[1..] == [];
      assert RunAll(src, s, actions) == Apply(src, s, Page(Drops));
    } else {
      var s1 := s.(table := tables(n));
      var a := Page(fates(n));
      var rest := JobIsActions(src, tables, fates, n + 1, end, Apply(src, s1, a));
      assert ([a] + rest)[1..] == rest;
      InsertsRun(src, s, tables(n), [a] + rest);
      actions := Inserts(tables(n)[|s.table|..]) + ([a] + rest);
    }
  }
}
