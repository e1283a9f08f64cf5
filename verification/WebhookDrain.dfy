/** The queue of plugins/connector-webhook/src/index.ts, drained alone and concurrently. */
module WebhookDrain {
  import opened Wrappers
  import opened Sequences
  import opened Text

  /** A staged delivery; receivedAt is None when its timestamp does not parse. */
  datatype Payload = Payload(receivedAt: Option<int>, byteLength: nat, rawBody: string)

  /** What `verifySignature` does: return, throw PluginAuthError, or throw something else. */
  datatype Check = Genuine | Forged | CheckFailed

  /**
    * The batch configuration. HMAC verification and the mapping to a record (None where
    * it throws) are opaque functions of the payload.
    */
  datatype Config<!R> = Config(
    batchSize: nat,
    maxPayloadBytes: nat,
    verifies: bool,
    replayWindowSeconds: nat,
    check: Payload -> Check,
    mapToRecord: Payload -> Option<R>)

  /** One look at the cache for a payload, at a reading of the clock. */
  datatype Look = Look(payload: Option<Payload>, now: int)

  datatype Verdict<+R> = Gone | TooLarge | Stale | BadSignature | Unmappable | Deliver(record: R) | Abort

  /** The checks on one payload, in the order the loop makes them. */
  function Inspect<R>(cfg: Config<R>, look: Look): Verdict<R> {
    match look.payload
    case None => Gone
    case Some(p) =>
      if p.byteLength > cfg.maxPayloadBytes then TooLarge
      else if cfg.verifies && cfg.replayWindowSeconds > 0
              && (p.receivedAt.None? || look.now - p.receivedAt.value > 1000 * cfg.replayWindowSeconds) then Stale
      else if cfg.verifies && cfg.check(p).Forged? then BadSignature
      else if cfg.verifies && cfg.check(p).CheckFailed? then Abort
      else
        match cfg.mapToRecord(p)
        case None => Unmappable
        case Some(r) => Deliver(r)
  }

  /** What must hold of a payload at a time for r to be ingested from it. */
  predicate Admitted<R(==)>(cfg: Config<R>, p: Payload, now: int, r: R) {
    && p.byteLength <= cfg.maxPayloadBytes
    && (cfg.verifies ==> cfg.check(p) == Genuine && InWindow(cfg, p, now))
    && cfg.mapToRecord(p) == Some(r)
  }

  /** A window of zero seconds is none; an unreadable time of arrival is outside every other one. */
  predicate InWindow<R>(cfg: Config<R>, p: Payload, now: int) {
    cfg.replayWindowSeconds == 0 ||
    (p.receivedAt.Some? && now - p.receivedAt.value <= 1000 * cfg.replayWindowSeconds)
  }

  /** What makes the check of a payload end the batch. */
  predicate Aborts<R>(cfg: Config<R>, p: Payload, now: int) {
    p.byteLength <= cfg.maxPayloadBytes && cfg.verifies && InWindow(cfg, p, now) && cfg.check(p) == CheckFailed
  }

  predicate LookAborts<R>(cfg: Config<R>, look: Look) {
    look.payload.Some? && Aborts(cfg, look.payload.value, look.now)
  }

  /** A record comes of a look if and only if it is admitted, and a look ends the batch if and only if it aborts. */
  lemma InspectExactly<R>(cfg: Config<R>, look: Look, r: R)
    ensures Inspect(cfg, look) == Deliver(r) <==> look.payload.Some? && Admitted(cfg, look.payload.value, look.now, r)
    ensures Inspect(cfg, look) == Abort <==> look.payload.Some? && Aborts(cfg, look.payload.value, look.now)
  {
  }

  function Delivered<R>(verdict: Verdict<R>): seq<R> {
    match verdict
    case Deliver(r) => [r]
    case _ => []
  }

  /** The records of the first n looks at a page, in page order. */
  function FirstRecords<R>(cfg: Config<R>, looks: seq<Look>, n: nat): seq<R>
    requires n <= |looks|
  {
    if n == 0 then [] else FirstRecords(cfg, looks, n - 1) + Delivered(Inspect(cfg, looks[n - 1]))
  }

  /** The records of a page. */
  function Records<R>(cfg: Config<R>, looks: seq<Look>): seq<R> {
    FirstRecords(cfg, looks, |looks|)
  }

  function Page(ids: seq<string>, batchSize: nat): (page: seq<string>)
    ensures page <= ids && |page| == if |ids| < batchSize then |ids| else batchSize
  {
    if |ids| <= batchSize then ids else ids[..batchSize]
  }

  /** `allIds.filter((id) => !processedSet.has(id))` */
  function Without(ids: seq<string>, processed: set<string>): seq<string> {
    if ids == [] then []
    else (if ids[0] in processed then [] else [ids[0]]) + Without(ids[1..], processed)
  }

  function Elements(ids: seq<string>): set<string> {
    set id <- ids
  }

  ghost predicate Distinct(ids: seq<string>) {
    forall i, j | 0 <= i < j < |ids| :: ids[i] != ids[j]
  }

  datatype BatchResult<+R> = BatchResult(records: seq<R>, nextCursor: Option<string>, hasMore: bool) | Threw

  function Empty<R>(): BatchResult<R> {
    BatchResult([], None, false)
  }

  /** The answer of a call that finds the lock taken. */
  function Busy<R>(): BatchResult<R> {
    BatchResult([], Some("continue"), true)
  }

  function Drained<R>(records: seq<R>, remaining: seq<string>): BatchResult<R> {
    BatchResult(records, if |remaining| > 0 then Some("continue") else None, |remaining| > 0)
  }

  // ---- What is left of the index

  lemma {:induction false} WithoutKeeps(ids: seq<string>, processed: set<string>)
    ensures forall id <- Without(ids, processed) :: id in ids && id !in processed
    ensures |Without(ids, processed)| <= |ids|
    ensures Without(ids, processed) == ids <==> forall id <- ids :: id !in processed
  {
    if ids == [] {
    } else {
      WithoutKeeps(ids[1..], processed);
      assert ids == [ids[0]] + ids[1..];
    }
  }

  lemma {:induction false} WithoutPrefix(ids: seq<string>, n: nat, processed: set<string>)
    requires n <= |ids| && forall i | 0 <= i < n :: ids[i] in processed
    ensures Without(ids, processed) == Without(ids[n..], processed)
  {
    if n > 0 {
      WithoutPrefix(ids[1..], n - 1, processed);
      assert ids[1..][n - 1..] == ids[n..];
    } else {
      assert ids[0..] == ids;
    }
  }

  /** Filtering by the processed ids is cutting the page off exactly when no id of the page occurs again behind it. */
  lemma FilterIsCut(ids: seq<string>, batchSize: nat)
    ensures var n := |Page(ids, batchSize)|;
            Without(ids, Elements(Page(ids, batchSize))) == ids[n..] <==>
            forall i, j | 0 <= i < n <= j < |ids| :: ids[i] != ids[j]
  {
    var page := Page(ids, batchSize);
    var n := |page|;
    assert forall i | 0 <= i < n :: page[i] == ids[i];
    WithoutPrefix(ids, n, Elements(page));
    WithoutKeeps(ids[n..], Elements(page));
    if forall i, j | 0 <= i < n <= j < |ids| :: ids[i] != ids[j] {
      forall id <- ids[n..]
        ensures id !in Elements(page)
      {
        var j :| n <= j < |ids| && ids[j] == id;
      }
    } else {
      var i, j :| 0 <= i < n <= j < |ids| && ids[i] == ids[j];
      assert ids[n..][j - n] == ids[j] && page[i] in Elements(page);
    }
  }

  lemma DistinctCut(ids: seq<string>, batchSize: nat)
    requires Distinct(ids)
    ensures Without(ids, Elements(Page(ids, batchSize))) == ids[|Page(ids, batchSize)|..]
  {
    FilterIsCut(ids, batchSize);
  }

  // ---- One batch

  /** The shared cache of one connector instance. */
  class Cache {
    var locked: bool
    var index: Option<seq<string>>
    var payloads: map<string, Payload>

    function Ids(): seq<string>
      reads this
    {
      match index case None => [] case Some(ids) => ids
    }
  }

  function LookUp(payloads: map<string, Payload>, id: string): Option<Payload> {
    if id in payloads then Some(payloads[id]) else None
  }

  function Looks(payloads: map<string, Payload>, page: seq<string>, clock: nat -> int): (looks: seq<Look>)
    ensures |looks| == |page|
    ensures forall i | 0 <= i < |page| ::
              looks[i] == Look(if page[i] in payloads then Some(payloads[page[i]]) else None, clock(i))
  {
    seq(|page|, i requires 0 <= i < |page| => Look(LookUp(payloads, page[i]), clock(i)))
  }

  /** The batch stops before anything is written: no secret, or a check that fails other than by PluginAuthError. */
  ghost predicate Stops<R>(cfg: Config<R>, secretBound: bool, looks: seq<Look>) {
    || (cfg.verifies && !secretBound)
    || exists i | 0 <= i < |looks| :: LookAborts(cfg, looks[i])
  }

  /** `fetchBatch`, uninterrupted; `clock(i)` is the time at which payload i is looked at. */
  method FetchBatch<R>(cfg: Config<R>, cache: Cache, secretBound: bool, clock: nat -> int)
    returns (result: BatchResult<R>)
    modifies cache
    ensures cache.locked == old(cache.locked)
    ensures old(cache.locked) ==>
              && result == BatchResult([], Some("continue"), true)
              && cache.index == old(cache.index) && cache.payloads == old(cache.payloads)
    ensures !old(cache.locked) ==>
              var ids := old(cache.Ids());
              var page := Page(ids, cfg.batchSize);
              var looks := Looks(old(cache.payloads), page, clock);
              if page == [] then
                && result == BatchResult([], None, false)
                && cache.index == old(cache.index) && cache.payloads == old(cache.payloads)
              else if Stops(cfg, secretBound, looks) then
                result == Threw && cache.index == old(cache.index) && cache.payloads == old(cache.payloads)
              else
                && result.BatchResult? && result.records == Records(cfg, looks)
                && (result.hasMore <==> Without(ids, Elements(page)) != [])
                && result.nextCursor == (if result.hasMore then Some("continue") else None)
                && cache.index == Some(Without(ids, Elements(page)))
                && cache.payloads == old(cache.payloads) - Elements(page)
  {
    if cache.locked {
      return Busy();
    }
    cache.locked := true;
    result := DrainLocked(cfg, cache, secretBound, clock);
    cache.locked := false;
  }

  /** The checks of the loop on one payload. */
  method CheckPayload<R>(cfg: Config<R>, look: Look) returns (verdict: Verdict<R>)
    ensures verdict == Inspect(cfg, look)
    ensures verdict.Deliver? ==> look.payload.Some? && Admitted(cfg, look.payload.value, look.now, verdict.record)
    ensures verdict.Abort? <==> LookAborts(cfg, look)
  {
    if look.payload.None? {
      return Gone;
    }
    var payload := look.payload.value;
    if payload.byteLength > cfg.maxPayloadBytes {
      return TooLarge;
    }
    if cfg.verifies {
      if cfg.replayWindowSeconds > 0 {
        if payload.receivedAt.None? || look.now - payload.receivedAt.value > 1000 * cfg.replayWindowSeconds {
          return Stale;
        }
      }
      var check := cfg.check(payload);
      if check.Forged? {
        return BadSignature;
      }
      if check.CheckFailed? {
        return Abort;
      }
    }
    match cfg.mapToRecord(payload) {
      case None => verdict := Unmappable;
      case Some(record) => verdict := Deliver(record);
    }
  }

  /** The loop over the page; `aborted` where a check throws. */
  method InspectPage<R>(cfg: Config<R>, payloads: map<string, Payload>, pageIds: seq<string>, clock: nat -> int)
    returns (aborted: bool, records: seq<R>, processedIds: seq<string>)
    ensures var looks := Looks(payloads, pageIds, clock);
            && (aborted <==> exists i | 0 <= i < |looks| :: LookAborts(cfg, looks[i]))
            && (!aborted ==> records == Records(cfg, looks) && processedIds == pageIds)
  {
    records, processedIds := [], [];
    ghost var looks := Looks(payloads, pageIds, clock);
    for i := 0 to |pageIds|
      invariant processedIds == pageIds[..i]
      invariant records == FirstRecords(cfg, looks, i)
      invariant forall k | 0 <= k < i :: !LookAborts(cfg, looks[k])
    {
      var payloadId := pageIds[i];
      var look := Look(LookUp(payloads, payloadId), clock(i));
      assert look == looks[i];
      var verdict := CheckPayload(cfg, look);
      if verdict.Abort? {
        return true, records, processedIds;
      }
      if verdict.Deliver? {
        records := records + [verdict.record];
      } else {
        assert records + [] == records;
      }
      processedIds := processedIds + [payloadId];
    }
    aborted := false;
  }

  method DrainLocked<R>(cfg: Config<R>, cache: Cache, secretBound: bool, clock: nat -> int)
    returns (result: BatchResult<R>)
    modifies cache`index, cache`payloads
    ensures var ids := old(cache.Ids());
            var page := Page(ids, cfg.batchSize);
            var looks := Looks(old(cache.payloads), page, clock);
            if page == [] then
              && result == BatchResult([], None, false)
              && cache.index == old(cache.index) && cache.payloads == old(cache.payloads)
            else if Stops(cfg, secretBound, looks) then
              result == Threw && cache.index == old(cache.index) && cache.payloads == old(cache.payloads)
            else
              && result.BatchResult? && result.records == Records(cfg, looks)
              && (result.hasMore <==> Without(ids, Elements(page)) != [])
              && result.nextCursor == (if result.hasMore then Some("continue") else None)
              && cache.index == Some(Without(ids, Elements(page)))
              && cache.payloads == old(cache.payloads) - Elements(page)
  {
    var allIds := cache.Ids();
    if |allIds| == 0 {
      return Empty();
    }
    var pageIds := Page(allIds, cfg.batchSize);
    if |pageIds| == 0 {
      return Empty();
    }
    if cfg.verifies && !secretBound {
      return Threw;
    }
    var aborted, records, processedIds := InspectPage(cfg, cache.payloads, pageIds, clock);
    if aborted {
      return Threw;
    }
    var processedSet := Elements(processedIds);
    var remainingIds := Without(allIds, processedSet);
    if |processedIds| > 0 {
      cache.index := Some(remainingIds);
      cache.payloads := cache.payloads - processedSet;
    }
    result := Drained(records, remainingIds);
  }

  // ---- Concurrent batches

  type Task = nat

  /** What a call returns, and whether it has written the index. */
  datatype Answer<+R> = Answer(result: BatchResult<R>, written: bool)

  /** Where a call of `fetchBatch` is. */
  datatype Phase<+R> =
    | Idle
    | HasLock
    | Inspecting(ids: seq<string>, looks: seq<Look>)   // the index as it was read, and the looks so far
    | Deleting(rest: set<string>, answer: Answer<R>)

  /** A batch whose index write has happened. */
  datatype Batch = Batch(task: Task, page: seq<string>, looks: seq<Look>, left: seq<string>)

  datatype System<+R> = System(
    lock: Option<Task>,
    index: seq<string>,
    payloads: map<string, Payload>,
    phases: map<Task, Phase<R>>,
    batches: seq<Batch>,                            // history, in the order of the index writes
    returned: seq<Answer<R>>)                       // history, in the order of the returns

  datatype Action =
    | Begin(task: Task)                // cache.lock: take the lock, or return at once if it is taken
    | ReadIndex(task: Task)            // cache.get of the index
    | LookAt(task: Task, now: int)     // cache.get of the next payload of the page, and its checks
    | Fail(task: Task)                 // a credential or check error before the index write
    | WriteIndex(task: Task)           // cache.set of the index
    | Delete(task: Task, id: string)   // cache.delete of one payload, in any order
    | Release(task: Task)              // lock.release, and return
    | Expire(id: string)               // a payload's time to live ends

  function PhaseOf<R>(s: System<R>, t: Task): Phase<R> {
    if t in s.phases then s.phases[t] else Idle
  }

  predicate Enabled<R>(cfg: Config<R>, s: System<R>, a: Action) {
    match a
    case Begin(t) => PhaseOf(s, t).Idle?
    case ReadIndex(t) => PhaseOf(s, t).HasLock?
    case LookAt(t, _) =>
      PhaseOf(s, t).Inspecting? && |PhaseOf(s, t).looks| < |Page(PhaseOf(s, t).ids, cfg.batchSize)|
    case Fail(t) => PhaseOf(s, t).Inspecting?
    case WriteIndex(t) =>
      PhaseOf(s, t).Inspecting? && |PhaseOf(s, t).looks| == |Page(PhaseOf(s, t).ids, cfg.batchSize)|
    case Delete(t, id) => PhaseOf(s, t).Deleting? && id in PhaseOf(s, t).rest
    case Release(t) => PhaseOf(s, t).Deleting? && PhaseOf(s, t).rest == {}
    case Expire(_) => true
  }

  function Moved<R>(s: System<R>, t: Task, phase: Phase<R>): System<R> {
    s.(phases := s.phases[t := phase])
  }

  function Apply<R>(cfg: Config<R>, s: System<R>, a: Action): System<R>
    requires Enabled(cfg, s, a)
  {
    match a
    case Begin(t) =>
      if s.lock.None? then Moved(s.(lock := Some(t)), t, HasLock)
      else s.(returned := s.returned + [Answer(Busy(), false)])
    case ReadIndex(t) =>
      if Page(s.index, cfg.batchSize) == [] then Moved(s, t, Deleting({}, Answer(Empty(), false)))
      else Moved(s, t, Inspecting(s.index, []))
    case LookAt(t, now) =>
      var p := PhaseOf(s, t);
      var look := Look(LookUp(s.payloads, Page(p.ids, cfg.batchSize)[|p.looks|]), now);
      if Inspect(cfg, look).Abort? then Moved(s, t, Deleting({}, Answer(Threw, false)))
      else Moved(s, t, Inspecting(p.ids, p.looks + [look]))
    case Fail(t) => Moved(s, t, Deleting({}, Answer(Threw, false)))
    case WriteIndex(t) =>
      var p := PhaseOf(s, t);
      var page := Page(p.ids, cfg.batchSize);
      var remaining := Without(p.ids, Elements(page));
      Moved(s.(index := remaining, batches := s.batches + [Batch(t, page, p.looks, remaining)]), t,
            Deleting(Elements(page), Answer(Drained(Records(cfg, p.looks), remaining), true)))
    case Delete(t, id) =>
      var p := PhaseOf(s, t);
      Moved(s.(payloads := s.payloads - {id}), t, Deleting(p.rest - {id}, p.answer))
    case Release(t) =>
      Moved(s.(lock := None, returned := s.returned + [PhaseOf(s, t).answer]), t, Idle)
    case Expire(id) => s.(payloads := s.payloads - {id})
  }

  function Start<R>(queue: seq<string>, payloads: map<string, Payload>): System<R> {
    System(None, queue, payloads, map[], [], [])
  }

  /** The actions can happen one after the other from s. */
  predicate CanRun<R>(cfg: Config<R>, s: System<R>, actions: seq<Action>)
    decreases |actions|
  {
    actions == [] || (Enabled(cfg, s, actions[0]) && CanRun(cfg, Apply(cfg, s, actions[0]), actions[1..]))
  }

  function RunAll<R>(cfg: Config<R>, s: System<R>, actions: seq<Action>): System<R>
    requires CanRun(cfg, s, actions)
    decreases |actions|
  {
    if actions == [] then s else RunAll(cfg, Apply(cfg, s, actions[0]), actions[1..])
  }

  // ---- What every action keeps

  /** The ids that the first n batches consumed. */
  function Consumed(batches: seq<Batch>, n: nat): seq<string>
    requires n <= |batches|
  {
    if n == 0 then [] else Consumed(batches, n - 1) + batches[n - 1].page
  }

  function AllConsumed(batches: seq<Batch>): seq<string> {
    Consumed(batches, |batches|)
  }

  /** A cursor comes exactly with hasMore. */
  predicate CursorAgrees<R>(r: BatchResult<R>) {
    r.BatchResult? ==> (r.hasMore <==> r.nextCursor.Some?)
  }

  /** An answer without an index write consumed nothing. */
  ghost predicate Accounted<R>(a: Answer<R>) {
    && CursorAgrees(a.result)
    && (!a.written ==>
          || a.result == BatchResult([], Some("continue"), true)
          || a.result == BatchResult([], None, false)
          || a.result == Threw)
  }

  /** Of the first n answers, the results of the calls that wrote the index, in the order in which they returned. */
  function HandedFrom<R>(answers: seq<Answer<R>>, n: nat): seq<BatchResult<R>>
    requires n <= |answers|
  {
    if n == 0 then []
    else HandedFrom(answers, n - 1) + (if answers[n - 1].written then [answers[n - 1].result] else [])
  }

  function HandedOut<R>(answers: seq<Answer<R>>): seq<BatchResult<R>> {
    HandedFrom(answers, |answers|)
  }

  /** The result of a batch that is written but has not returned yet. */
  function InHand<R>(s: System<R>): seq<BatchResult<R>> {
    if s.lock.None? then []
    else
      match PhaseOf(s, s.lock.value)
      case Deleting(_, Answer(result, true)) => [result]
      case _ => []
  }

  function BatchResults<R>(cfg: Config<R>, batches: seq<Batch>): (results: seq<BatchResult<R>>)
    ensures |results| == |batches|
  {
    seq(|batches|, i requires 0 <= i < |batches| =>
      var more := batches[i].left != [];
      BatchResult(Records(cfg, batches[i].looks), if more then Some("continue") else None, more))
  }

  /** Each look of a batch found the payload staged under that id, or found it gone; none aborts the batch. */
  predicate LooksAtPage<R>(cfg: Config<R>, staged: map<string, Payload>, page: seq<string>, looks: seq<Look>) {
    && |looks| <= |page|
    && forall i | 0 <= i < |looks| ::
         && !Inspect(cfg, looks[i]).Abort?
         && (looks[i].payload.None? || looks[i].payload == LookUp(staged, page[i]))
  }

  /** Consumed ids, then what was left, are the queue after each of the batches. */
  ghost predicate Ledger(queue: seq<string>, batches: seq<Batch>) {
    forall n | 0 <= n < |batches| :: Consumed(batches, n + 1) + batches[n].left == queue
  }

  /** Consumed ids, then the index, are the original queue, and so they were after every batch. */
  ghost predicate Conserved<R>(queue: seq<string>, s: System<R>) {
    && AllConsumed(s.batches) + s.index == queue
    && Ledger(queue, s.batches)
  }

  /** A task is past Idle exactly while it holds the lock, and what it has read of the index is still the index. */
  ghost predicate Exclusive<R>(cfg: Config<R>, staged: map<string, Payload>, s: System<R>) {
    && (forall t: Task :: !PhaseOf(s, t).Idle? <==> s.lock == Some(t))
    && (forall t: Task | PhaseOf(s, t).Inspecting? ::
          && PhaseOf(s, t).ids == s.index
          && LooksAtPage(cfg, staged, Page(s.index, cfg.batchSize), PhaseOf(s, t).looks))
  }

  /** Payloads only disappear, and each batch looked at every id of its page. */
  ghost predicate Inspected<R>(cfg: Config<R>, staged: map<string, Payload>, s: System<R>) {
    && (forall id | id in s.payloads :: id in staged && s.payloads[id] == staged[id])
    && (forall b <- s.batches :: |b.looks| == |b.page| && LooksAtPage(cfg, staged, b.page, b.looks))
  }

  ghost predicate Answered<R>(s: System<R>) {
    && (forall t: Task | PhaseOf(s, t).Deleting? :: Accounted(PhaseOf(s, t).answer))
    && (forall a <- s.returned :: Accounted(a))
  }

  /** What was handed out, then what is about to be, are the results of the batches: each once, in order. */
  ghost predicate HandedInOrder<R>(cfg: Config<R>, s: System<R>) {
    HandedOut(s.returned) + InHand(s) == BatchResults(cfg, s.batches)
  }

  ghost predicate Invariant<R>(cfg: Config<R>, queue: seq<string>, staged: map<string, Payload>, s: System<R>) {
    && Conserved(queue, s) && Exclusive(cfg, staged, s) && Inspected(cfg, staged, s)
    && Answered(s) && HandedInOrder(cfg, s)
  }

  lemma HandedAppend<R>(answers: seq<Answer<R>>, a: Answer<R>)
    ensures HandedOut(answers + [a]) == HandedOut(answers) + (if a.written then [a.result] else [])
  {
    HandedExtends(answers, a, |answers|);
  }

  lemma {:induction false} HandedExtends<R>(answers: seq<Answer<R>>, a: Answer<R>, n: nat)
    requires n <= |answers|
    ensures HandedFrom(answers + [a], n) == HandedFrom(answers, n)
  {
    if n == 0 {
    } else {
      HandedExtends(answers, a, n - 1);
    }
  }

  lemma {:induction false} ConsumedExtends(batches: seq<Batch>, b: Batch, n: nat)
    requires n <= |batches|
    ensures Consumed(batches + [b], n) == Consumed(batches, n)
  {
    if n == 0 {
    } else {
      ConsumedExtends(batches, b, n - 1);
    }
  }

  lemma DistinctSuffix(a: seq<string>, b: seq<string>)
    requires Distinct(a + b)
    ensures Distinct(b)
  {
    forall i, j | 0 <= i < j < |b|
      ensures b[i] != b[j]
    {
      assert (a + b)[|a| + i] == b[i] && (a + b)[|a| + j] == b[j];
    }
  }

  lemma LedgerGrows(queue: seq<string>, batches: seq<Batch>, b: Batch)
    requires Ledger(queue, batches)
    requires AllConsumed(batches) + (b.page + b.left) == queue
    ensures Ledger(queue, batches + [b])
    ensures AllConsumed(batches + [b]) + b.left == queue
  {
    var more := batches + [b];
    ConsumedExtends(batches, b, |batches|);
    Regroup(AllConsumed(batches), b.page, b.left);
    forall n | 0 <= n < |more|
      ensures Consumed(more, n + 1) + more[n].left == queue
    {
      if n < |batches| {
        ConsumedExtends(batches, b, n + 1);
      }
    }
  }

  /** Cutting the first page off the index. */
  lemma PageIsCut(consumed: seq<string>, index: seq<string>, batchSize: nat)
    requires Distinct(consumed + index)
    ensures var page := Page(index, batchSize);
            index == page + Without(index, Elements(page))
  {
    DistinctSuffix(consumed, index);
    DistinctCut(index, batchSize);
  }

  lemma WriteConserves<R>(cfg: Config<R>, queue: seq<string>, staged: map<string, Payload>, s: System<R>, t: Task)
    requires Distinct(queue) && Conserved(queue, s) && Exclusive(cfg, staged, s)
    requires Enabled(cfg, s, WriteIndex(t))
    ensures Conserved(queue, Apply(cfg, s, WriteIndex(t)))
  {
    var page := Page(s.index, cfg.batchSize);
    PageIsCut(AllConsumed(s.batches), s.index, cfg.batchSize);
    LedgerGrows(queue, s.batches, Batch(t, page, PhaseOf(s, t).looks, Without(s.index, Elements(page))));
  }

  lemma WriteHands<R>(cfg: Config<R>, staged: map<string, Payload>, s: System<R>, t: Task)
    requires Exclusive(cfg, staged, s) && HandedInOrder(cfg, s)
    requires Enabled(cfg, s, WriteIndex(t))
    ensures HandedInOrder(cfg, Apply(cfg, s, WriteIndex(t)))
  {
    var s' := Apply(cfg, s, WriteIndex(t));
    var b := s'.batches[|s.batches|];
    assert s.lock == Some(t);
    assert HandedOut(s.returned) == BatchResults(cfg, s.batches);
    assert BatchResults(cfg, s.batches + [b]) ==
           BatchResults(cfg, s.batches) + [Drained(Records(cfg, b.looks), b.left)];
  }

  lemma WriteKeeps<R>(cfg: Config<R>, queue: seq<string>, staged: map<string, Payload>, s: System<R>, t: Task)
    requires Distinct(queue) && Invariant(cfg, queue, staged, s)
    requires Enabled(cfg, s, WriteIndex(t))
    ensures Invariant(cfg, queue, staged, Apply(cfg, s, WriteIndex(t)))
  {
    WriteConserves(cfg, queue, staged, s, t);
    WriteHands(cfg, staged, s, t);
    var s' := Apply(cfg, s, WriteIndex(t));
    assert s.lock == Some(t);
    assert forall u: Task | u != t :: PhaseOf(s', u) == PhaseOf(s, u);
  }

  lemma LookKeeps<R>(cfg: Config<R>, queue: seq<string>, staged: map<string, Payload>, s: System<R>, t: Task, now: int)
    requires Invariant(cfg, queue, staged, s)
    requires Enabled(cfg, s, LookAt(t, now))
    ensures Invariant(cfg, queue, staged, Apply(cfg, s, LookAt(t, now)))
  {
    var s' := Apply(cfg, s, LookAt(t, now));
    assert forall u: Task | u != t :: PhaseOf(s', u) == PhaseOf(s, u);
  }

  lemma ActionKeeps<R>(cfg: Config<R>, queue: seq<string>, staged: map<string, Payload>, s: System<R>, a: Action)
    requires Distinct(queue) && Invariant(cfg, queue, staged, s)
    requires Enabled(cfg, s, a)
    ensures Invariant(cfg, queue, staged, Apply(cfg, s, a))
  {
    if a.WriteIndex? {
      WriteKeeps(cfg, queue, staged, s, a.task);
    } else if a.LookAt? {
      LookKeeps(cfg, queue, staged, s, a.task, a.now);
    } else if a.Expire? {
      assert forall t: Task :: PhaseOf(Apply(cfg, s, a), t) == PhaseOf(s, t);
    } else if a.Begin? || a.Release? {
      LockKeeps(cfg, queue, staged, s, a);
    } else if a.ReadIndex? {
      ReadKeeps(cfg, queue, staged, s, a);
    } else if a.Fail? {
      FailKeeps(cfg, queue, staged, s, a);
    } else {
      DeleteKeeps(cfg, queue, staged, s, a);
    }
  }

  lemma LockHands<R>(cfg: Config<R>, staged: map<string, Payload>, s: System<R>, a: Action)
    requires Exclusive(cfg, staged, s) && HandedInOrder(cfg, s)
    requires Enabled(cfg, s, a) && (a.Begin? || a.Release?)
    ensures HandedInOrder(cfg, Apply(cfg, s, a))
  {
    if a.Release? {
      assert s.lock == Some(a.task);
      HandedAppend(s.returned, PhaseOf(s, a.task).answer);
    } else if s.lock.Some? {
      assert s.lock != Some(a.task);
      HandedAppend(s.returned, Answer(Busy(), false));
    }
  }

  lemma LockExcludes<R>(cfg: Config<R>, staged: map<string, Payload>, s: System<R>, a: Action)
    requires Exclusive(cfg, staged, s) && Enabled(cfg, s, a)
    requires a.Begin? || a.Release?
    ensures Exclusive(cfg, staged, Apply(cfg, s, a))
  {
    assert forall t: Task | t != a.task :: PhaseOf(Apply(cfg, s, a), t) == PhaseOf(s, t);
  }

  lemma LockAnswers<R>(cfg: Config<R>, s: System<R>, a: Action)
    requires Answered(s) && Enabled(cfg, s, a)
    requires a.Begin? || a.Release?
    ensures Answered(Apply(cfg, s, a))
  {
    assert forall t: Task | t != a.task :: PhaseOf(Apply(cfg, s, a), t) == PhaseOf(s, t);
  }

  lemma LockKeeps<R>(cfg: Config<R>, queue: seq<string>, staged: map<string, Payload>, s: System<R>, a: Action)
    requires Invariant(cfg, queue, staged, s) && Enabled(cfg, s, a)
    requires a.Begin? || a.Release?
    ensures Invariant(cfg, queue, staged, Apply(cfg, s, a))
  {
    LockExcludes(cfg, staged, s, a);
    LockAnswers(cfg, s, a);
    LockHands(cfg, staged, s, a);
    KeepsLedger(cfg, queue, staged, s, Apply(cfg, s, a));
  }

  /** What does not depend on the phases. */
  lemma KeepsLedger<R>(cfg: Config<R>, queue: seq<string>, staged: map<string, Payload>, s: System<R>, s': System<R>)
    requires Conserved(queue, s) && Inspected(cfg, staged, s)
    requires s'.index == s.index && s'.payloads == s.payloads && s'.batches == s.batches
    ensures Conserved(queue, s') && Inspected(cfg, staged, s')
  {
  }

  lemma ReadKeeps<R>(cfg: Config<R>, queue: seq<string>, staged: map<string, Payload>, s: System<R>, a: Action)
    requires Invariant(cfg, queue, staged, s) && Enabled(cfg, s, a) && a.ReadIndex?
    ensures Invariant(cfg, queue, staged, Apply(cfg, s, a))
  {
    assert forall t: Task | t != a.task :: PhaseOf(Apply(cfg, s, a), t) == PhaseOf(s, t);
  }

  lemma FailKeeps<R>(cfg: Config<R>, queue: seq<string>, staged: map<string, Payload>, s: System<R>, a: Action)
    requires Invariant(cfg, queue, staged, s) && Enabled(cfg, s, a) && a.Fail?
    ensures Invariant(cfg, queue, staged, Apply(cfg, s, a))
  {
    assert forall t: Task | t != a.task :: PhaseOf(Apply(cfg, s, a), t) == PhaseOf(s, t);
  }

  lemma DeleteKeeps<R>(cfg: Config<R>, queue: seq<string>, staged: map<string, Payload>, s: System<R>, a: Action)
    requires Invariant(cfg, queue, staged, s) && Enabled(cfg, s, a) && a.Delete?
    ensures Invariant(cfg, queue, staged, Apply(cfg, s, a))
  {
    assert forall t: Task | t != a.task :: PhaseOf(Apply(cfg, s, a), t) == PhaseOf(s, t);
  }

  lemma {:induction false} RunKeeps<R>(cfg: Config<R>, queue: seq<string>, staged: map<string, Payload>,
        s: System<R>, actions: seq<Action>)
    requires Distinct(queue) && Invariant(cfg, queue, staged, s)
    requires CanRun(cfg, s, actions)
    ensures Invariant(cfg, queue, staged, RunAll(cfg, s, actions))
    decreases |actions|
  {
    if actions == [] {
    } else {
      ActionKeeps(cfg, queue, staged, s, actions[0]);
      RunKeeps(cfg, queue, staged, Apply(cfg, s, actions[0]), actions[1..]);
    }
  }

  /**
    * Under every interleaving of concurrent batches, expiries and failures: the consumed ids
    * followed by the index are the original queue, at most one task is past taking the lock,
    * every batch looked at each id of its page once, in order, and the calls that wrote the index
    * return the results of the batches, each once and in batch order, while all others consumed
    * nothing; a cursor comes exactly with `hasMore`.
    */
  lemma EveryInterleaving<R>(cfg: Config<R>, queue: seq<string>, staged: map<string, Payload>, actions: seq<Action>)
    requires Distinct(queue) && CanRun(cfg, Start(queue, staged), actions)
    ensures Invariant(cfg, queue, staged, RunAll(cfg, Start(queue, staged), actions))
  {
    RunKeeps(cfg, queue, staged, Start(queue, staged), actions);
  }

  // ---- Records across calls

  /** The looks of the first n batches. */
  function LooksOf(batches: seq<Batch>, n: nat): seq<Look>
    requires n <= |batches|
  {
    if n == 0 then [] else LooksOf(batches, n - 1) + batches[n - 1].looks
  }

  /** The records of the first n results. */
  function RecordsFrom<R>(results: seq<BatchResult<R>>, n: nat): seq<R>
    requires n <= |results|
  {
    if n == 0 then []
    else RecordsFrom(results, n - 1) + (if results[n - 1].BatchResult? then results[n - 1].records else [])
  }

  function AllRecords<R>(results: seq<BatchResult<R>>): seq<R> {
    RecordsFrom(results, |results|)
  }

  lemma {:induction false} RecordsJoin<R>(cfg: Config<R>, a: seq<Look>, b: seq<Look>, n: nat)
    requires n <= |b|
    ensures FirstRecords(cfg, a + b, |a| + n) == Records(cfg, a) + FirstRecords(cfg, b, n)
  {
    if n == 0 {
      RecordsWithin(cfg, a, b, |a|);
    } else {
      RecordsJoin(cfg, a, b, n - 1);
      Regroup(Records(cfg, a), FirstRecords(cfg, b, n - 1), Delivered(Inspect(cfg, b[n - 1])));
    }
  }

  lemma {:induction false} RecordsWithin<R>(cfg: Config<R>, a: seq<Look>, b: seq<Look>, n: nat)
    requires n <= |a|
    ensures FirstRecords(cfg, a + b, n) == FirstRecords(cfg, a, n)
  {
    if n == 0 {
    } else {
      RecordsWithin(cfg, a, b, n - 1);
    }
  }

  /** The records of looks one behind the other are the records of each, one behind the other. */
  ghost predicate Additive<R>(f: seq<Look> -> seq<R>) {
    && f([]) == []
    && forall a, b {:trigger f(a + b)} :: f(a + b) == f(a) + f(b)
  }

  lemma RecordsAdditive<R>(cfg: Config<R>)
    ensures Additive((looks: seq<Look>) => Records(cfg, looks))
  {
    forall a, b
      ensures Records(cfg, a + b) == Records(cfg, a) + Records(cfg, b)
    {
      RecordsJoin(cfg, a, b, |b|);
    }
  }

  /** The i-th result carries the records of the i-th batch. */
  ghost predicate Carries<R>(f: seq<Look> -> seq<R>, batches: seq<Batch>, results: seq<BatchResult<R>>) {
    && |results| <= |batches|
    && forall i {:trigger results[i]} | 0 <= i < |results| ::
         results[i].BatchResult? && results[i].records == f(batches[i].looks)
  }

  lemma {:induction false} RecordsOfBatches<R>(f: seq<Look> -> seq<R>, batches: seq<Batch>,
        results: seq<BatchResult<R>>, n: nat)
    requires Additive(f) && Carries(f, batches, results) && n <= |results|
    ensures RecordsFrom(results, n) == f(LooksOf(batches, n))
  {
    if n == 0 {
    } else {
      RecordsOfBatches(f, batches, results, n - 1);
      assert results[n - 1].records == f(batches[n - 1].looks);
    }
  }

  lemma {:induction false} LooksAlign<R>(cfg: Config<R>, staged: map<string, Payload>, batches: seq<Batch>, n: nat)
    requires n <= |batches|
    requires forall b <- batches :: |b.looks| == |b.page| && LooksAtPage(cfg, staged, b.page, b.looks)
    ensures |LooksOf(batches, n)| == |Consumed(batches, n)|
    ensures LooksAtPage(cfg, staged, Consumed(batches, n), LooksOf(batches, n))
  {
    if n == 0 {
    } else {
      LooksAlign(cfg, staged, batches, n - 1);
      assert batches[n - 1] in batches;
      LooksJoin(cfg, staged, Consumed(batches, n - 1), LooksOf(batches, n - 1),
        batches[n - 1].page, batches[n - 1].looks);
    }
  }

  lemma LooksJoin<R>(cfg: Config<R>, staged: map<string, Payload>,
                     ids: seq<string>, looks: seq<Look>, page: seq<string>, more: seq<Look>)
    requires |looks| == |ids| && LooksAtPage(cfg, staged, ids, looks)
    requires |more| == |page| && LooksAtPage(cfg, staged, page, more)
    ensures LooksAtPage(cfg, staged, ids + page, looks + more)
  {
    forall i | 0 <= i < |looks + more|
      ensures !Inspect(cfg, (looks + more)[i]).Abort?
      ensures (looks + more)[i].payload.None? || (looks + more)[i].payload == LookUp(staged, (ids + page)[i])
    {
      if i < |looks| {
        assert (looks + more)[i] == looks[i];
      } else {
        assert (looks + more)[i] == more[i - |looks|];
      }
    }
  }

  lemma {:induction false} ConsumedGrows(batches: seq<Batch>, n: nat, m: nat)
    requires n <= m <= |batches|
    ensures Consumed(batches, n) <= Consumed(batches, m)
    decreases m
  {
    if n == m {
    } else {
      ConsumedGrows(batches, n, m - 1);
    }
  }

  /**
    * Over every interleaving the records that the calls have returned so far, in the order of their
    * returns, are the records of one look at each id of a front of the original queue, in queue order.
    */
  lemma RecordsFollowQueue<R>(cfg: Config<R>, queue: seq<string>, staged: map<string, Payload>, actions: seq<Action>)
    returns (looks: seq<Look>)
    requires Distinct(queue) && CanRun(cfg, Start(queue, staged), actions)
    ensures LooksAtPage(cfg, staged, queue, looks)
    ensures AllRecords(HandedOut(RunAll(cfg, Start(queue, staged), actions).returned)) == Records(cfg, looks)
    ensures LooksWithin(looks, TimesOf(actions))
  {
    EveryInterleaving(cfg, queue, staged, actions);
    RunTimes(cfg, Start(queue, staged), actions, {});
    assert {} + TimesOf(actions) == TimesOf(actions);
    var s := RunAll(cfg, Start(queue, staged), actions);
    looks := FrontLooks(cfg, queue, staged, s, TimesOf(actions));
  }

  lemma HandedCarries<R>(cfg: Config<R>, s: System<R>)
    requires HandedInOrder(cfg, s)
    ensures Carries((looks: seq<Look>) => Records(cfg, looks), s.batches, HandedOut(s.returned))
  {
    var results := BatchResults(cfg, s.batches);
    forall i | 0 <= i < |HandedOut(s.returned)|
      ensures HandedOut(s.returned)[i] == results[i]
    {
      assert (HandedOut(s.returned) + InHand(s))[i] == HandedOut(s.returned)[i];
    }
  }

  lemma {:induction false} LooksOfWithin(batches: seq<Batch>, n: nat, times: set<int>)
    requires n <= |batches| && forall b <- batches :: LooksWithin(b.looks, times)
    ensures LooksWithin(LooksOf(batches, n), times)
  {
    if n == 0 {
    } else {
      LooksOfWithin(batches, n - 1, times);
      assert batches[n - 1] in batches;
    }
  }

  lemma FrontLooks<R>(cfg: Config<R>, queue: seq<string>, staged: map<string, Payload>, s: System<R>, times: set<int>)
    returns (looks: seq<Look>)
    requires Invariant(cfg, queue, staged, s) && TimesIn(s, times)
    ensures LooksAtPage(cfg, staged, queue, looks) && LooksWithin(looks, times)
    ensures AllRecords(HandedOut(s.returned)) == Records(cfg, looks)
  {
    var n := |HandedOut(s.returned)|;
    HandedCarries(cfg, s);
    RecordsAdditive(cfg);
    RecordsOfBatches((ls: seq<Look>) => Records(cfg, ls), s.batches, HandedOut(s.returned), n);
    LooksAlign(cfg, staged, s.batches, n);
    LooksOfWithin(s.batches, n, times);
    looks := LooksOf(s.batches, n);
    ConsumedGrows(s.batches, n, |s.batches|);
    var ids := Consumed(s.batches, n);
    assert ids <= queue;
    assert forall i | 0 <= i < |looks| :: ids[i] == queue[i];
  }

  /** Where the page of batch n stands among the consumed ids. */
  function Offset(batches: seq<Batch>, n: nat): nat
    requires n <= |batches|
  {
    |Consumed(batches, n)|
  }

  lemma {:induction false} PageStands(batches: seq<Batch>, n: nat, i: nat, m: nat)
    requires n < m <= |batches| && i < |batches[n].page|
    ensures var j := Offset(batches, n) + i;
            j < Offset(batches, m) && Consumed(batches, m)[j] == batches[n].page[i]
    decreases m
  {
    if n == m - 1 {
    } else {
      PageStands(batches, n, i, m - 1);
    }
  }

  lemma {:induction false} OffsetGrows(batches: seq<Batch>, n: nat, m: nat)
    requires n < m <= |batches|
    ensures Offset(batches, n) + |batches[n].page| <= Offset(batches, m)
    decreases m
  {
    if n == m - 1 {
    } else {
      OffsetGrows(batches, n, m - 1);
    }
  }

  /** No id is consumed by two batches, nor twice by one. */
  lemma NoIdTwice<R>(cfg: Config<R>, queue: seq<string>, staged: map<string, Payload>, actions: seq<Action>,
        n: nat, m: nat, i: nat, k: nat)
    requires Distinct(queue) && CanRun(cfg, Start(queue, staged), actions)
    requires var batches := RunAll(cfg, Start(queue, staged), actions).batches;
             && n < |batches| && m < |batches| && i < |batches[n].page| && k < |batches[m].page|
             && batches[n].page[i] == batches[m].page[k]
    ensures n == m && i == k
  {
    EveryInterleaving(cfg, queue, staged, actions);
    var s := RunAll(cfg, Start(queue, staged), actions);
    PagesDisjoint(s.batches, s.index, queue, n, m, i, k);
  }

  lemma PagesDisjoint(batches: seq<Batch>, index: seq<string>, queue: seq<string>, n: nat, m: nat, i: nat, k: nat)
    requires AllConsumed(batches) + index == queue && Distinct(queue)
    requires n < |batches| && m < |batches| && i < |batches[n].page| && k < |batches[m].page|
    requires batches[n].page[i] == batches[m].page[k]
    ensures n == m && i == k
  {
    PageStands(batches, n, i, |batches|);
    PageStands(batches, m, k, |batches|);
    var a, b := Offset(batches, n) + i, Offset(batches, m) + k;
    assert queue[a] == queue[b];
    assert a == b;
    if n < m {
      OffsetGrows(batches, n, m);
    } else if m < n {
      OffsetGrows(batches, m, n);
    }
  }

  predicate AdmittedAt<R(==)>(cfg: Config<R>, look: Look, r: R) {
    look.payload.Some? && Admitted(cfg, look.payload.value, look.now, r)
  }

  /**
    * The records of a batch are those that its looks admit, in page order: each comes from a later place
    * of the page than the one before it, and no admitted one is left out.
    */
  lemma RecordsInOrder<R>(cfg: Config<R>, looks: seq<Look>) returns (at: seq<nat>)
    ensures |at| == |Records(cfg, looks)|
    ensures forall k | 0 <= k < |at| :: at[k] < |looks| && AdmittedAt(cfg, looks[at[k]], Records(cfg, looks)[k])
    ensures forall k, l | 0 <= k < l < |at| :: at[k] < at[l]
    ensures forall i: nat, r | i < |looks| && AdmittedAt(cfg, looks[i], r) :: i in at
  {
    at := FirstRecordsInOrder(cfg, looks, |looks|);
  }

  lemma {:induction false} FirstRecordsInOrder<R>(cfg: Config<R>, looks: seq<Look>, n: nat) returns (at: seq<nat>)
    requires n <= |looks|
    ensures |at| == |FirstRecords(cfg, looks, n)|
    ensures forall k | 0 <= k < |at| :: at[k] < n && AdmittedAt(cfg, looks[at[k]], FirstRecords(cfg, looks, n)[k])
    ensures forall k, l | 0 <= k < l < |at| :: at[k] < at[l]
    ensures forall i: nat, r | i < n && AdmittedAt(cfg, looks[i], r) :: i in at
  {
    at := [];
    if n == 0 {
    } else {
      at := FirstRecordsInOrder(cfg, looks, n - 1);
      forall r
        ensures AdmittedAt(cfg, looks[n - 1], r) <==> Inspect(cfg, looks[n - 1]) == Deliver(r)
      {
        InspectExactly(cfg, looks[n - 1], r);
      }
      if Inspect(cfg, looks[n - 1]).Deliver? {
        at := at + [n - 1];
      }
    }
  }

  // ---- Only genuine payloads

  /** The readings of the clock at the looks of a run. */
  function TimesOf(actions: seq<Action>): set<int> {
    set a <- actions | a.LookAt? :: a.now
  }

  predicate LooksWithin(looks: seq<Look>, times: set<int>) {
    forall look <- looks :: look.now in times
  }

  /** Every look of the calls and the batches was at one of these times. */
  ghost predicate TimesIn<R>(s: System<R>, times: set<int>) {
    && (forall t: Task | PhaseOf(s, t).Inspecting? :: LooksWithin(PhaseOf(s, t).looks, times))
    && (forall b <- s.batches :: LooksWithin(b.looks, times))
  }

  lemma ActionTimes<R>(cfg: Config<R>, s: System<R>, a: Action, times: set<int>)
    requires Enabled(cfg, s, a) && TimesIn(s, times)
    ensures TimesIn(Apply(cfg, s, a), times + TimesOf([a]))
  {
    assert a in [a];
    assert a.LookAt? ==> a.now in TimesOf([a]);
    var s' := Apply(cfg, s, a);
    forall t: Task | PhaseOf(s', t).Inspecting?
      ensures LooksWithin(PhaseOf(s', t).looks, times + TimesOf([a]))
    {
      assert PhaseOf(s', t) == PhaseOf(s, t) || a.task == t;
    }
  }

  lemma {:induction false} RunTimes<R>(cfg: Config<R>, s: System<R>, actions: seq<Action>, times: set<int>)
    requires CanRun(cfg, s, actions) && TimesIn(s, times)
    ensures TimesIn(RunAll(cfg, s, actions), times + TimesOf(actions))
    decreases |actions|
  {
    if actions == [] {
      assert times + TimesOf(actions) == times;
    } else {
      ActionTimes(cfg, s, actions[0], times);
      RunTimes(cfg, Apply(cfg, s, actions[0]), actions[1..], times + TimesOf([actions[0]]));
      assert actions == [actions[0]] + actions[1..];
      assert times + TimesOf([actions[0]]) + TimesOf(actions[1..]) == times + TimesOf(actions);
    }
  }

  /** The record was mapped from a payload staged under an id of the queue, admitted at one of these times. */
  ghost predicate Ingested<R(!new)>(cfg: Config<R>, queue: seq<string>, staged: map<string, Payload>, times: set<int>,
        r: R)
  {
    exists id, now :: id in queue && id in staged && now in times && Admitted(cfg, staged[id], now, r)
  }

  /**
    * Under every interleaving each record that is handed out is the mapping of a staged payload that is not too
    * large and, where signatures are verified, genuine and inside the window when it is looked at.
    */
  lemma OnlyGenuine<R(!new)>(cfg: Config<R>, queue: seq<string>, staged: map<string, Payload>, actions: seq<Action>,
        r: R)
    requires Distinct(queue) && CanRun(cfg, Start(queue, staged), actions)
    requires r in AllRecords(HandedOut(RunAll(cfg, Start(queue, staged), actions).returned))
    ensures Ingested(cfg, queue, staged, TimesOf(actions), r)
  {
    var looks := RecordsFollowQueue(cfg, queue, staged, actions);
    var at := RecordsInOrder(cfg, looks);
    var k :| 0 <= k < |Records(cfg, looks)| && Records(cfg, looks)[k] == r;
    var look := looks[at[k]];
    assert look.payload == LookUp(staged, queue[at[k]]);
    assert look in looks && queue[at[k]] in queue;
    assert Admitted(cfg, staged[queue[at[k]]], look.now, r);
  }

  // ---- Nothing is skipped while nothing expires

  /** Each look found what was staged under the id. */
  predicate Finds(staged: map<string, Payload>, page: seq<string>, looks: seq<Look>) {
    && |looks| <= |page|
    && forall i | 0 <= i < |looks| ::
         looks[i].payload == if page[i] in staged then Some(staged[page[i]]) else None
  }

  /** What is in the index is still staged, and only what has left it is deleted. */
  ghost predicate Kept<R>(cfg: Config<R>, staged: map<string, Payload>, s: System<R>) {
    && (forall id <- s.index :: id in staged ==> id in s.payloads)
    && (forall t: Task | PhaseOf(s, t).Deleting? :: forall id <- PhaseOf(s, t).rest :: id !in s.index)
    && (forall t: Task | PhaseOf(s, t).Inspecting? ::
          Finds(staged, Page(PhaseOf(s, t).ids, cfg.batchSize), PhaseOf(s, t).looks))
    && (forall b <- s.batches :: |b.looks| == |b.page| && Finds(staged, b.page, b.looks))
  }

  lemma WriteLeaves<R>(cfg: Config<R>, queue: seq<string>, staged: map<string, Payload>, s: System<R>, t: Task)
    requires Invariant(cfg, queue, staged, s) && Kept(cfg, staged, s) && Enabled(cfg, s, WriteIndex(t))
    ensures Kept(cfg, staged, Apply(cfg, s, WriteIndex(t)))
  {
    var ids := PhaseOf(s, t).ids;
    WithoutKeeps(ids, Elements(Page(ids, cfg.batchSize)));
    var s' := Apply(cfg, s, WriteIndex(t));
    assert forall u: Task | u != t :: PhaseOf(s', u) == PhaseOf(s, u);
  }

  lemma ActionLeaves<R>(cfg: Config<R>, queue: seq<string>, staged: map<string, Payload>, s: System<R>, a: Action)
    requires Invariant(cfg, queue, staged, s) && Kept(cfg, staged, s) && Enabled(cfg, s, a) && !a.Expire?
    ensures Kept(cfg, staged, Apply(cfg, s, a))
  {
    if a.WriteIndex? {
      WriteLeaves(cfg, queue, staged, s, a.task);
    } else if a.LookAt? {
      LookLeaves(cfg, queue, staged, s, a.task, a.now);
    } else {
      assert forall u: Task | u != a.task :: PhaseOf(Apply(cfg, s, a), u) == PhaseOf(s, u);
    }
  }

  lemma LookLeaves<R>(cfg: Config<R>, queue: seq<string>, staged: map<string, Payload>, s: System<R>, t: Task, now: int)
    requires Invariant(cfg, queue, staged, s) && Kept(cfg, staged, s) && Enabled(cfg, s, LookAt(t, now))
    ensures Kept(cfg, staged, Apply(cfg, s, LookAt(t, now)))
  {
    var p := PhaseOf(s, t);
    var page := Page(p.ids, cfg.batchSize);
    var id := page[|p.looks|];
    assert id == s.index[|p.looks|];
    assert LookUp(s.payloads, id) == if id in staged then Some(staged[id]) else None;
    var s' := Apply(cfg, s, LookAt(t, now));
    assert forall u: Task | u != t :: PhaseOf(s', u) == PhaseOf(s, u);
  }

  predicate NoneExpires(actions: seq<Action>) {
    forall a <- actions :: !a.Expire?
  }

  lemma {:induction false} RunLeaves<R>(cfg: Config<R>, queue: seq<string>, staged: map<string, Payload>, s: System<R>,
        actions: seq<Action>)
    requires Distinct(queue) && Invariant(cfg, queue, staged, s) && Kept(cfg, staged, s)
    requires CanRun(cfg, s, actions) && NoneExpires(actions)
    ensures Kept(cfg, staged, RunAll(cfg, s, actions))
    decreases |actions|
  {
    if actions == [] {
    } else {
      ActionLeaves(cfg, queue, staged, s, actions[0]);
      ActionKeeps(cfg, queue, staged, s, actions[0]);
      RunLeaves(cfg, queue, staged, Apply(cfg, s, actions[0]), actions[1..]);
    }
  }

  lemma FindsJoin(staged: map<string, Payload>, ids: seq<string>, looks: seq<Look>, page: seq<string>, more: seq<Look>)
    requires |looks| == |ids| && Finds(staged, ids, looks)
    requires |more| == |page| && Finds(staged, page, more)
    ensures Finds(staged, ids + page, looks + more)
  {
  }

  lemma {:induction false} FindsAlign(staged: map<string, Payload>, batches: seq<Batch>, n: nat)
    requires n <= |batches| && forall b <- batches :: |b.looks| == |b.page| && Finds(staged, b.page, b.looks)
    ensures |LooksOf(batches, n)| == |Consumed(batches, n)| && Finds(staged, Consumed(batches, n), LooksOf(batches, n))
  {
    if n == 0 {
    } else {
      FindsAlign(staged, batches, n - 1);
      var b := batches[n - 1];
      assert b in batches;
      FindsJoin(staged, Consumed(batches, n - 1), LooksOf(batches, n - 1), b.page, b.looks);
    }
  }

  lemma FrontFinds<R>(cfg: Config<R>, queue: seq<string>, staged: map<string, Payload>, s: System<R>)
    returns (looks: seq<Look>)
    requires Invariant(cfg, queue, staged, s) && Kept(cfg, staged, s)
    ensures Finds(staged, queue, looks) && AllRecords(HandedOut(s.returned)) == Records(cfg, looks)
  {
    var n := |HandedOut(s.returned)|;
    HandedCarries(cfg, s);
    RecordsAdditive(cfg);
    RecordsOfBatches((ls: seq<Look>) => Records(cfg, ls), s.batches, HandedOut(s.returned), n);
    FindsAlign(staged, s.batches, n);
    looks := LooksOf(s.batches, n);
    ConsumedGrows(s.batches, n, |s.batches|);
    var ids := Consumed(s.batches, n);
    assert ids <= queue;
    assert forall i | 0 <= i < |looks| :: ids[i] == queue[i];
  }

  lemma StartKept<R>(cfg: Config<R>, queue: seq<string>, staged: map<string, Payload>)
    ensures Kept(cfg, staged, Start(queue, staged))
  {
  }

  /**
    * Over every interleaving in which no payload expires, the records that have been handed out are all that one
    * look at each id of a front of the queue admits, each look finding what was staged.
    */
  lemma NothingSkipped<R>(cfg: Config<R>, queue: seq<string>, staged: map<string, Payload>, actions: seq<Action>)
    returns (looks: seq<Look>)
    requires Distinct(queue) && CanRun(cfg, Start(queue, staged), actions) && NoneExpires(actions)
    ensures Finds(staged, queue, looks)
    ensures AllRecords(HandedOut(RunAll(cfg, Start(queue, staged), actions).returned)) == Records(cfg, looks)
  {
    EveryInterleaving(cfg, queue, staged, actions);
    EveryInterleaving(cfg, queue, staged, []);
    StartKept(cfg, queue, staged);
    RunLeaves(cfg, queue, staged, Start(queue, staged), actions);
    looks := FrontFinds(cfg, queue, staged, RunAll(cfg, Start(queue, staged), actions));
  }

  // ---- When the consumer is told to stop

  predicate SaysDone<R>(r: BatchResult<R>) {
    r.BatchResult? && !r.hasMore
  }

  /** Whoever has been told that there is no more, or is about to be, has the queue drained. */
  ghost predicate EndsTruly<R>(s: System<R>) {
    && (forall a <- s.returned :: SaysDone(a.result) ==> s.index == [])
    && (forall t: Task | PhaseOf(s, t).Deleting? :: SaysDone(PhaseOf(s, t).answer.result) ==> s.index == [])
  }

  lemma WriteEndsTruly<R>(cfg: Config<R>, staged: map<string, Payload>, s: System<R>, t: Task)
    requires Exclusive(cfg, staged, s) && EndsTruly(s) && Enabled(cfg, s, WriteIndex(t))
    ensures EndsTruly(Apply(cfg, s, WriteIndex(t)))
  {
    assert PhaseOf(s, t).ids == s.index;
    assert forall u: Task | u != t :: PhaseOf(Apply(cfg, s, WriteIndex(t)), u) == PhaseOf(s, u);
  }

  lemma ActionEndsTruly<R>(cfg: Config<R>, staged: map<string, Payload>, s: System<R>, a: Action)
    requires cfg.batchSize >= 1 && Exclusive(cfg, staged, s) && EndsTruly(s) && Enabled(cfg, s, a)
    ensures EndsTruly(Apply(cfg, s, a))
  {
    if a.WriteIndex? {
      WriteEndsTruly(cfg, staged, s, a.task);
    } else if a.Expire? {
      assert forall t: Task :: PhaseOf(Apply(cfg, s, a), t) == PhaseOf(s, t);
    } else {
      assert forall t: Task | t != a.task :: PhaseOf(Apply(cfg, s, a), t) == PhaseOf(s, t);
    }
  }

  lemma {:induction false} RunEndsTruly<R>(cfg: Config<R>, queue: seq<string>, staged: map<string, Payload>,
        s: System<R>, actions: seq<Action>)
    requires cfg.batchSize >= 1 && Distinct(queue) && Invariant(cfg, queue, staged, s) && EndsTruly(s)
    requires CanRun(cfg, s, actions)
    ensures EndsTruly(RunAll(cfg, s, actions))
    decreases |actions|
  {
    if actions == [] {
    } else {
      ActionKeeps(cfg, queue, staged, s, actions[0]);
      ActionEndsTruly(cfg, staged, s, actions[0]);
      RunEndsTruly(cfg, queue, staged, Apply(cfg, s, actions[0]), actions[1..]);
    }
  }

  /**
    * Under every interleaving a call that returns no more, busy calls and failed ones included, means that the
    * whole queue has been consumed: no consumer stops while ids are left.
    */
  lemma DoneMeansDrained<R>(cfg: Config<R>, queue: seq<string>, staged: map<string, Payload>, actions: seq<Action>)
    requires cfg.batchSize >= 1 && Distinct(queue) && CanRun(cfg, Start(queue, staged), actions)
    ensures var s := RunAll(cfg, Start(queue, staged), actions);
            (exists a <- s.returned :: a.result.BatchResult? && !a.result.hasMore) ==>
              s.index == [] && AllConsumed(s.batches) == queue
  {
    var s := RunAll(cfg, Start(queue, staged), actions);
    EveryInterleaving(cfg, queue, staged, actions);
    RunEndsTruly(cfg, queue, staged, Start(queue, staged), actions);
    if a :| a in s.returned && a.result.BatchResult? && !a.result.hasMore {
      assert SaysDone(a.result);
      assert AllConsumed(s.batches) + [] == AllConsumed(s.batches);
    }
  }

  /** A call that finds the lock taken changes nothing and is told to come back. */
  lemma BusyComesBack<R>(cfg: Config<R>, s: System<R>, t: Task)
    requires PhaseOf(s, t).Idle? && s.lock.Some?
    ensures var answer := Answer(BatchResult([], Some("continue"), true), false);
            Apply(cfg, s, Begin(t)) == s.(returned := s.returned + [answer])
  {
  }

  /** A call on a drained queue is told that there is no more. */
  lemma DrainedEnds<R>(cfg: Config<R>, s: System<R>, t: Task)
    requires PhaseOf(s, t).Idle? && s.lock.None? && s.index == []
    ensures var call := [Begin(t), ReadIndex(t), Release(t)];
            && CanRun(cfg, s, call)
            && RunAll(cfg, s, call).returned == s.returned + [Answer(BatchResult([], None, false), false)]
            && RunAll(cfg, s, call).lock == None
  {
    var s1 := Apply(cfg, s, Begin(t));
    var s2 := Apply(cfg, s1, ReadIndex(t));
    assert PhaseOf(s2, t) == Deleting({}, Answer(BatchResult([], None, false), false));
    var s3 := Apply(cfg, s2, Release(t));
    OneAction(cfg, s2, Release(t), []);
    OneAction(cfg, s1, ReadIndex(t), [Release(t)]);
    OneAction(cfg, s, Begin(t), [ReadIndex(t), Release(t)]);
    assert [Release(t)] + [] == [Release(t)] && [ReadIndex(t)] + [Release(t)] == [ReadIndex(t), Release(t)];
    assert [Begin(t)] + [ReadIndex(t), Release(t)] == [Begin(t), ReadIndex(t), Release(t)];
    assert s3.returned == s.returned + [Answer(BatchResult([], None, false), false)];
  }

  lemma OneAction<R>(cfg: Config<R>, s: System<R>, a: Action, more: seq<Action>)
    requires Enabled(cfg, s, a) && CanRun(cfg, Apply(cfg, s, a), more)
    ensures CanRun(cfg, s, [a] + more)
    ensures RunAll(cfg, s, [a] + more) == RunAll(cfg, Apply(cfg, s, a), more)
  {
    assert ([a] + more)[1..] == more;
  }
}
