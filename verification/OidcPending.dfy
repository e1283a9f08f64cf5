/** The pending logins of plugins/auth-provider-oidc/src/index.ts, against the history of all logins. */
module OidcPending {
  import opened Wrappers
  import opened Sets

  const REDIRECT_URI_TTL_MS: int := 10 * 60 * 1000
  const MAX_PENDING_REDIRECTS: nat := 10_000

  datatype Entry = Entry(uri: string, nonce: string, expiresAt: int)

  type Table = map<string, Entry>

  /** Clock readings are parameters: an issuance reads the clock once to evict and once to set the expiry. */
  datatype Operation =
    | Issue(state: string, uri: string, nonce: string, evictAt: int, setAt: int)
    | Callback(state: string, now: int)

  datatype Outcome = Issued | Refused | Accepted(uri: string, nonce: string) | Rejected

  // ---- The table

  function Evicted(m: Table, now: int): (r: Table) {
    map s | s in m && m[s].expiresAt > now :: m[s]
  }

  function Step(m: Table, op: Operation): (r: (Table, Outcome)) {
    match op
    case Issue(state, uri, nonce, evictAt, setAt) =>
      var kept := Evicted(m, evictAt);
      if |kept| >= MAX_PENDING_REDIRECTS then (kept, Refused)
      else (kept[state := Entry(uri, nonce, setAt + REDIRECT_URI_TTL_MS)], Issued)
    case Callback(state, now) =>
      if state == "" || state !in m || m[state].expiresAt <= now then (m, Rejected)
      else (m - {state}, Accepted(m[state].uri, m[state].nonce))
  }

  class OidcAuthProvider {
    var redirectUriByState: Table

    constructor ()
      ensures redirectUriByState == map[]
    {
      redirectUriByState := map[];
    }

    /** `evictExpiredRedirectUris` */
    method EvictExpiredRedirectUris(now: int)
      modifies this
      ensures redirectUriByState == Evicted(old(redirectUriByState), now)
      ensures redirectUriByState.Keys ==
              set s | s in old(redirectUriByState) && old(redirectUriByState)[s].expiresAt > now
      ensures forall s <- redirectUriByState :: redirectUriByState[s] == old(redirectUriByState)[s]
    {
      var keys := redirectUriByState.Keys;
      ghost var before := redirectUriByState;
      while keys != {}
        invariant keys <= redirectUriByState.Keys <= before.Keys
        invariant forall s | s in redirectUriByState :: redirectUriByState[s] == before[s]
        invariant forall s | s in before && s !in keys :: s in redirectUriByState <==> before[s].expiresAt > now
        decreases |keys|
      {
        var key :| key in keys;
        if redirectUriByState[key].expiresAt <= now {
          redirectUriByState := redirectUriByState - {key};
        }
        keys := keys - {key};
      }
    }

    /** The part of `getAuthorizationUrl` that records the login; false where it throws. */
    method GetAuthorizationUrl(state: string, redirectUri: string, nonce: string, evictAt: int, setAt: int)
      returns (ok: bool)
      modifies this
      ensures (redirectUriByState, if ok then Issued else Refused) ==
              Step(old(redirectUriByState), Issue(state, redirectUri, nonce, evictAt, setAt))
      ensures var kept := Evicted(old(redirectUriByState), evictAt);
              && ok == (|kept| < 10_000)
              && redirectUriByState == if ok then kept[state := Entry(redirectUri, nonce, setAt + 600_000)] else kept
    {
      EvictExpiredRedirectUris(evictAt);
      if |redirectUriByState| >= MAX_PENDING_REDIRECTS {
        return false;
      }
      redirectUriByState := redirectUriByState[state := Entry(redirectUri, nonce, setAt + REDIRECT_URI_TTL_MS)];
      return true;
    }

    /** The part of `handleCallback` that looks the state up and consumes it. An absent state is the empty one. */
    method HandleCallback(state: string, now: int) returns (outcome: Outcome)
      modifies this
      ensures (redirectUriByState, outcome) == Step(old(redirectUriByState), Callback(state, now))
      ensures var m := old(redirectUriByState);
              if state != "" && state in m && m[state].expiresAt > now
              then redirectUriByState == m - {state} && outcome == Accepted(m[state].uri, m[state].nonce)
              else redirectUriByState == m && outcome == Rejected
    {
      if state == "" {
        return Rejected;
      }
      if state !in redirectUriByState || redirectUriByState[state].expiresAt <= now {
        return Rejected;
      }
      var cachedState := redirectUriByState[state];
      redirectUriByState := redirectUriByState - {state};
      return Accepted(cachedState.uri, cachedState.nonce);
    }
  }

  // ---- Runs

  datatype Event = Event(op: Operation, outcome: Outcome)

  type History = seq<Event>

  /** The table and the history after some operations on the empty table. */
  function Run(ops: seq<Operation>): (r: (Table, History))
    ensures |r.1| == |ops|
  {
    if ops == [] then (map[], [])
    else
      var (m, h) := Run(ops[..|ops| - 1]);
      var op := ops[|ops| - 1];
      var (m', outcome) := Step(m, op);
      (m', h + [Event(op, outcome)])
  }

  function Begins(op: Operation): int {
    match op case Issue(_, _, _, evictAt, _) => evictAt case Callback(_, now) => now
  }

  function Ends(op: Operation): int {
    match op case Issue(_, _, _, _, setAt) => setAt case Callback(_, now) => now
  }

  /** The clock does not run backwards within the operation number `k`, nor on the way to it. */
  predicate InOrder(ops: seq<Operation>, k: nat)
    requires k < |ops|
  {
    && Begins(ops[k]) <= Ends(ops[k])
    && (k > 0 ==> Ends(ops[k - 1]) <= Begins(ops[k]))
  }

  predicate Monotone(ops: seq<Operation>) {
    forall k | 0 <= k < |ops| :: InOrder(ops, k)
  }

  // ---- The reference: the history, which forgets nothing

  /** The login that is pending for a state: its last issuance, unless a callback consumed it since. */
  function Pending(h: History, state: string): Option<Entry> {
    if h == [] then None
    else
      match h[|h| - 1]
      case Event(Issue(s, uri, nonce, _, setAt), Issued) =>
        if s == state then Some(Entry(uri, nonce, setAt + 600_000)) else Pending(h[..|h| - 1], state)
      case Event(Callback(s, _), Accepted(_, _)) =>
        if s == state then None else Pending(h[..|h| - 1], state)
      case _ => Pending(h[..|h| - 1], state)
  }

  function StatesOf(h: History): set<string> {
    set e <- h :: e.op.state
  }

  predicate Live(h: History, state: string, now: int) {
    Pending(h, state).Some? && Pending(h, state).value.expiresAt > now
  }

  /** The states whose login is pending and not expired. */
  function LiveStates(h: History, now: int): set<string> {
    set s | s in StatesOf(h) && Live(h, s, now)
  }

  /**
    * What a table that never evicts anything answers: an issuance is refused exactly when 10,000
    * logins are live, and a callback is accepted exactly when its state has a live login.
    */
  function ReferenceOutcome(h: History, op: Operation): Outcome {
    match op
    case Issue(_, _, _, evictAt, _) =>
      if |LiveStates(h, evictAt)| >= 10_000 then Refused else Issued
    case Callback(state, now) =>
      if state != "" && Live(h, state, now)
      then Accepted(Pending(h, state).value.uri, Pending(h, state).value.nonce)
      else Rejected
  }

  /** The operation number `k` of a run answered as the reference does after the events before it. */
  predicate AnswersAsReference(ops: seq<Operation>, h: History, k: nat)
    requires k < |ops| && k < |h|
  {
    h[k] == Event(ops[k], ReferenceOutcome(h[..k], ops[k]))
  }

  // ---- Refinement

  /** The table holds every login that is live at a time, and nothing that is not pending. */
  ghost predicate Refines(m: Table, h: History, now: int) {
    && (forall s | s in m :: Pending(h, s) == Some(m[s]))
    && (forall s | Live(h, s, now) :: s in m)
  }

  lemma {:induction false} PendingWasIssued(h: History, state: string)
    ensures Pending(h, state).Some? ==> state in StatesOf(h)
  {
    if h == [] {
    } else {
      PendingWasIssued(h[..|h| - 1], state);
      assert h == h[..|h| - 1] + [h[|h| - 1]];
    }
  }

  lemma PendingAfter(h: History, e: Event, state: string)
    ensures Pending(h + [e], state) ==
            match e
            case Event(Issue(s, uri, nonce, _, setAt), Issued) =>
              if s == state then Some(Entry(uri, nonce, setAt + 600_000)) else Pending(h, state)
            case Event(Callback(s, _), Accepted(_, _)) =>
              if s == state then None else Pending(h, state)
            case _ => Pending(h, state)
  {
    assert (h + [e])[..|h + [e]| - 1] == h;
  }

  /** After eviction the table holds exactly the live logins. */
  lemma EvictedIsLive(m: Table, h: History, now: int)
    requires Refines(m, h, now)
    ensures Evicted(m, now).Keys == LiveStates(h, now)
  {
    forall s
      ensures s in Evicted(m, now) <==> s in LiveStates(h, now)
    {
      PendingWasIssued(h, s);
      if s in m && m[s].expiresAt > now {
        assert Live(h, s, now);
      }
      if Live(h, s, now) {
        assert s in m;
      }
    }
  }

  lemma StepAnswers(m: Table, h: History, op: Operation)
    requires Refines(m, h, Begins(op))
    ensures Step(m, op).1 == ReferenceOutcome(h, op)
  {
    if op.Issue? {
      EvictedIsLive(m, h, op.evictAt);
      assert |Evicted(m, op.evictAt)| == |Evicted(m, op.evictAt).Keys|;
    } else {
      assert Live(h, op.state, op.now) ==> op.state in m;
    }
  }

  lemma StepRefines(m: Table, h: History, op: Operation)
    requires Refines(m, h, Begins(op)) && Begins(op) <= Ends(op)
    ensures Refines(Step(m, op).0, h + [Event(op, Step(m, op).1)], Ends(op))
  {
    var e := Event(op, Step(m, op).1);
    forall s
      ensures s in Step(m, op).0 ==> Pending(h + [e], s) == Some(Step(m, op).0[s])
      ensures Live(h + [e], s, Ends(op)) ==> s in Step(m, op).0
    {
      PendingAfter(h, e, s);
      if Live(h, s, Ends(op)) {
        assert Live(h, s, Begins(op));
      }
    }
  }

  lemma EvictedNoMore(m: Table, h: History, now: int)
    ensures |Evicted(m, now)| <= |m|
  {
    assert Evicted(m, now).Keys <= m.Keys;
    SubsetSize(Evicted(m, now).Keys, m.Keys);
  }

  /**
    * Every operation of every run answers as the reference does, although expired logins are
    * evicted; and the table never holds more than 10,000 entries.
    */
  lemma {:induction false} RunRefines(ops: seq<Operation>, now: int)
    requires Monotone(ops)
    requires ops != [] ==> Ends(ops[|ops| - 1]) <= now
    ensures var (m, h) := Run(ops);
            && |m| <= 10_000
            && Refines(m, h, now)
            && forall k | 0 <= k < |ops| :: AnswersAsReference(ops, h, k)
    decreases |ops|
  {
    if ops == [] {
    } else {
      var n := |ops| - 1;
      var before := ops[..n];
      assert InOrder(ops, n);
      assert Monotone(before) by {
        assert forall k | 0 <= k < n :: InOrder(ops, k) ==> InOrder(before, k);
      }
      RunRefines(before, Begins(ops[n]));
      var (m0, h0) := Run(before);
      StepAnswers(m0, h0, ops[n]);
      StepRefines(m0, h0, ops[n]);
      IssueBounds(m0, ops[n]);
      EventsExtend(before, ops[n], h0, ReferenceOutcome(h0, ops[n]));
      assert ops == before + [ops[n]];
    }
  }

  /** When every event answers as the reference does and so does the next, all of them do. */
  lemma EventsExtend(ops: seq<Operation>, op: Operation, h: History, outcome: Outcome)
    requires |ops| == |h| && forall k | 0 <= k < |ops| :: AnswersAsReference(ops, h, k)
    requires outcome == ReferenceOutcome(h, op)
    ensures forall k | 0 <= k <= |ops| :: AnswersAsReference(ops + [op], h + [Event(op, outcome)], k)
  {
    var e := Event(op, outcome);
    forall k | 0 <= k <= |ops|
      ensures AnswersAsReference(ops + [op], h + [e], k)
    {
      if k < |h| {
        assert AnswersAsReference(ops, h, k);
        assert (h + [e])[..k] == h[..k];
      } else {
        assert (h + [e])[..k] == h;
      }
    }
  }

  lemma IssueBounds(m: Table, op: Operation)
    requires |m| <= 10_000
    ensures |Step(m, op).0| <= 10_000
  {
    if op.Issue? {
      EvictedNoMore(m, [], op.evictAt);
    } else if Step(m, op).1.Accepted? {
      SubsetSize((m - {op.state}).Keys, m.Keys);
    }
  }

  // ---- What acceptance means

  predicate IssuesAt(h: History, i: nat, state: string)
    requires i < |h|
  {
    h[i].op.Issue? && h[i].op.state == state && h[i].outcome == Issued
  }

  predicate ConsumesAt(h: History, i: nat, state: string)
    requires i < |h|
  {
    h[i].op.Callback? && h[i].op.state == state && h[i].outcome.Accepted?
  }

  /** Event i issued the entry e for the state and nothing since has replaced or consumed it. */
  predicate IsLatest(h: History, i: nat, state: string, e: Entry) {
    && i < |h|
    && IssuesAt(h, i, state)
    && e == Entry(h[i].op.uri, h[i].op.nonce, h[i].op.setAt + 600_000)
    && forall j | i < j < |h| :: !IssuesAt(h, j, state) && !ConsumesAt(h, j, state)
  }

  lemma {:induction false} PendingIsLatest(h: History, state: string, e: Entry)
    ensures Pending(h, state) == Some(e) <==> exists i: nat :: IsLatest(h, i, state, e)
    decreases |h|
  {
    if h == [] {
    } else {
      var n := |h| - 1;
      PendingIsLatest(h[..n], state, e);
      if IssuesAt(h, n, state) {
        if Pending(h, state) == Some(e) {
          assert IsLatest(h, n, state, e);
        }
      } else if !ConsumesAt(h, n, state) {
        assert Pending(h, state) == Pending(h[..n], state);
        if exists i: nat :: IsLatest(h[..n], i, state, e) {
          var i: nat :| IsLatest(h[..n], i, state, e);
          LatestExtends(h, i, state, e);
        }
        if exists i: nat :: IsLatest(h, i, state, e) {
          var i: nat :| IsLatest(h, i, state, e);
          LatestExtends(h, i, state, e);
        }
      }
    }
  }

  lemma LatestExtends(h: History, i: nat, state: string, e: Entry)
    requires h != [] && !IssuesAt(h, |h| - 1, state) && !ConsumesAt(h, |h| - 1, state)
    ensures IsLatest(h, i, state, e) <==> IsLatest(h[..|h| - 1], i, state, e)
  {
    var g := h[..|h| - 1];
    assert forall j: nat | j < |g| ::
        IssuesAt(g, j, state) == IssuesAt(h, j, state) && ConsumesAt(g, j, state) == ConsumesAt(h, j, state);
  }

  /**
    * A callback is accepted if and only if its state is not empty, it was issued before, the
    * latest issuance has been neither replaced nor consumed, and its ten minutes have not passed;
    * it then yields the redirect URI and nonce of exactly that issuance.
    */
  lemma AcceptedExactlyWhenPending(ops: seq<Operation>, k: nat, uri: string, nonce: string)
    requires Monotone(ops) && k < |ops| && ops[k].Callback?
    ensures var h := Run(ops).1;
            h[k] == Event(ops[k], Accepted(uri, nonce)) <==>
            && ops[k].state != ""
            && exists i: nat, e: Entry ::
                 && IsLatest(h[..k], i, ops[k].state, e)
                 && e.uri == uri && e.nonce == nonce && ops[k].now < e.expiresAt
  {
    var h := Run(ops).1;
    var state := ops[k].state;
    RunRefines(ops, Ends(ops[|ops| - 1]));
    assert AnswersAsReference(ops, h, k);
    var p := Pending(h[..k], state);
    if p.Some? {
      PendingIsLatest(h[..k], state, p.value);
    }
    if i: nat, e: Entry :|
         IsLatest(h[..k], i, state, e) && e.uri == uri && e.nonce == nonce && ops[k].now < e.expiresAt {
      PendingIsLatest(h[..k], state, e);
    }
  }

  lemma LatestFollows(h: History, i: nat, j: nat, k: nat, state: string, e: Entry)
    requires j < k <= |h| && ConsumesAt(h, j, state)
    requires IsLatest(h[..k], i, state, e)
    ensures j < i < k && IssuesAt(h, i, state)
  {
    assert ConsumesAt(h[..k], j, state);
  }

  /** Two callbacks with the same state are both accepted only if it was issued again in between. */
  lemma AcceptedOnce(ops: seq<Operation>, j: nat, k: nat)
    requires Monotone(ops) && j < k < |ops|
    requires ConsumesAt(Run(ops).1, j, ops[k].state) && ConsumesAt(Run(ops).1, k, ops[k].state)
    ensures exists i | j < i < k :: IssuesAt(Run(ops).1, i, ops[k].state)
  {
    var h := Run(ops).1;
    var state := ops[k].state;
    RunRefines(ops, Ends(ops[|ops| - 1]));
    assert AnswersAsReference(ops, h, k);
    AcceptedExactlyWhenPending(ops, k, h[k].outcome.uri, h[k].outcome.nonce);
    var i: nat, e: Entry :| IsLatest(h[..k], i, state, e);
    LatestFollows(h, i, j, k, state, e);
  }
}
