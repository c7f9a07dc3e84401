/** The offline recomputations of a dynamic-authority decision:
    `validate_historical_authority_binding` and
    `validate_authority_learning_binding` (core/proof_validators/common.py) and
    `replay_authority_decision` (core/authority_replay.py). */
module AuthorityValidators {
  import opened Common
  import opened Models
  import opened Governance
  import opened DynamicAuthority

  // ------------------------------------------------------------- shared queries

  /** Position of the first row with this hash, or the number of rows. */
  function FirstWith(rows: seq<LedgerRow>, head: Head): (i: nat)
    ensures i <= |rows|
    ensures i < |rows| ==> rows[i].hash == head
    ensures forall j :: 0 <= j < i ==> rows[j].hash != head
  {
    if rows == [] then 0 else if rows[0].hash == head then 0 else 1 + FirstWith(rows[1..], head)
  }

  /** How many rows a head commits to, if it is in the ledger. */
  function CommittedLength(rows: seq<LedgerRow>, head: Head): (r: Option<nat>)
    ensures r.Some? ==> r.value <= |rows|
  {
    if head == Genesis then Some(0)
    else if FirstWith(rows, head) < |rows| then Some(FirstWith(rows, head) + 1)
    else None
  }

  /** The loop that collects the committed rows up to the expected head. */
  method CollectCommitted(rows: seq<LedgerRow>, head: Head) returns (found: bool, committed: seq<LedgerRow>)
    ensures found <==> CommittedLength(rows, head).Some?
    ensures found ==> committed == rows[..CommittedLength(rows, head).value]
  {
    committed := [];
    if head == Genesis {
      return true, committed;
    }
    for k := 0 to |rows|
      invariant committed == rows[..k]
      invariant forall j :: 0 <= j < k ==> rows[j].hash != head
    {
      committed := committed + [rows[k]];
      if rows[k].hash == head {
        return true, committed;
      }
    }
    found := false;
  }

  /** The counting loop over ledger rows inside a closed window. */
  method CountWindow(rows: seq<LedgerRow>, from: real, upTo: real) returns (c: Counters)
    ensures c == CountFrom(EventsIn(rows), from, Some(upTo))
  {
    var successes, adverse, critical := 0, 0, 0;
    for k := 0 to |rows|
      invariant Counters(successes, adverse, critical) == CountFrom(EventsIn(rows)[..k], from, Some(upTo))
    {
      var e := rows[k].event;
      assert EventsIn(rows)[..k + 1][..k] == EventsIn(rows)[..k];
      if from <= e.occurredAt <= upTo {
        if e.eventType == ExecutionConfirmed {
          successes := successes + 1;
        }
        if e.eventType == ExecutionFailed || e.eventType == AuthorizationRejected
           || e.eventType == PolicyViolation || e.eventType == TamperDetected {
          adverse := adverse + 1;
        }
        if e.eventType == TamperDetected || e.eventType == PolicyViolation {
          critical := critical + 1;
        }
      }
    }
    assert EventsIn(rows)[..|rows|] == EventsIn(rows);
    c := Counters(successes, adverse, critical);
  }

  /** The first `n` rows are those a head commits to: none for the start of the chain,
      otherwise the rows up to the first with that hash. */
  ghost predicate Commits(rows: seq<LedgerRow>, head: Head, n: int) {
    if head == Genesis then n == 0
    else 0 < n <= |rows| && rows[n - 1].hash == head && forall i :: 0 <= i < n - 1 ==> rows[i].hash != head
  }

  lemma CommitsExactly(rows: seq<LedgerRow>, head: Head)
    ensures CommittedLength(rows, head).None? <==>
              head != Genesis && forall i :: 0 <= i < |rows| ==> rows[i].hash != head
    ensures forall n :: Commits(rows, head, n) <==> n >= 0 && CommittedLength(rows, head) == Some(n)
  {
    forall n ensures Commits(rows, head, n) <==> n >= 0 && CommittedLength(rows, head) == Some(n) {
      if Commits(rows, head, n) && head != Genesis {
        assert rows[n - 1].hash == head;
      }
    }
  }

  /** Where rows hold an outcome of these types inside the closed window. */
  ghost function OutcomeRows(rows: seq<LedgerRow>, types: set<EventType>, from: real, upTo: real): set<int> {
    set i | 0 <= i < |rows| && rows[i].event.eventType in types && from <= rows[i].event.occurredAt <= upTo
  }

  /** The counters are the numbers of rows with an outcome of each kind in the window. */
  ghost predicate Tallies(c: Counters, rows: seq<LedgerRow>, from: real, upTo: real) {
    && c.successes == |OutcomeRows(rows, {ExecutionConfirmed}, from, upTo)|
    && c.adverse == |OutcomeRows(rows, {ExecutionFailed, AuthorizationRejected, PolicyViolation, TamperDetected},
                                 from, upTo)|
    && c.critical == |OutcomeRows(rows, {TamperDetected, PolicyViolation}, from, upTo)|
  }

  lemma OutcomeRowsSnoc(rows: seq<LedgerRow>, types: set<EventType>, from: real, upTo: real)
    requires rows != []
    ensures var front, e := rows[..|rows| - 1], Last(rows).event;
            |OutcomeRows(rows, types, from, upTo)| == |OutcomeRows(front, types, from, upTo)|
                                                      + One(e.eventType in types && from <= e.occurredAt <= upTo)
  {
    var n, e := |rows| - 1, Last(rows).event;
    OnePlaceMore(OutcomeRows(rows[..n], types, from, upTo), OutcomeRows(rows, types, from, upTo), n,
                 e.eventType in types && from <= e.occurredAt <= upTo);
  }

  lemma {:induction false} RecountTallies(rows: seq<LedgerRow>, from: real, upTo: real)
    ensures Tallies(CountFrom(EventsIn(rows), from, Some(upTo)), rows, from, upTo)
  {
    if rows != [] {
      var front := rows[..|rows| - 1];
      RecountTallies(front, from, upTo);
      assert EventsIn(rows)[..|rows| - 1] == EventsIn(front);
      OutcomeRowsSnoc(rows, {ExecutionConfirmed}, from, upTo);
      OutcomeRowsSnoc(rows, {ExecutionFailed, AuthorizationRejected, PolicyViolation, TamperDetected}, from, upTo);
      OutcomeRowsSnoc(rows, {TamperDetected, PolicyViolation}, from, upTo);
    }
  }

  // ------------------------------------------------------- historical validator

  datatype HistoricalVerdict =
    | HistoricalOk | BoundaryNotDerived | PolicyMismatch | HeadMissing | HeadTimeInconsistent
    | CountersDiffer | StateUnjustified | MultiplierDiffers | ReasonDiffers

  predicate AnyAtOrBefore(rows: seq<LedgerRow>, t: real) {
    exists i :: 0 <= i < |rows| && rows[i].event.occurredAt <= t
  }

  /** State, multiplier and reason against the thresholds. */
  function DerivedVerdict(snapshot: Snapshot, p: AuthorityPolicy,
                          expected: (AuthorityState, Reason)): HistoricalVerdict {
    if snapshot.state != expected.0 then StateUnjustified
    else if snapshot.multiplier != p.Multiplier(expected.0) then MultiplierDiffers
    else if snapshot.reason != expected.1 then ReasonDiffers
    else HistoricalOk
  }

  function HistoricalVerdictOf(snapshot: Snapshot, rows: seq<LedgerRow>, p: AuthorityPolicy,
                               head: Head): HistoricalVerdict {
    if snapshot.historyStart != snapshot.evaluatedAt - p.Window() then BoundaryNotDerived
    else if snapshot.policy != p then PolicyMismatch
    else if CommittedLength(rows, head).None? then HeadMissing
    else
      var n := CommittedLength(rows, head).value;
      if AnyAtOrBefore(rows[n..], snapshot.evaluatedAt) then HeadTimeInconsistent
      else
        var c := CountFrom(EventsIn(rows[..n]), snapshot.historyStart, Some(snapshot.evaluatedAt));
        if snapshot.counters != c then CountersDiffer else DerivedVerdict(snapshot, p, Derive(p, c))
  }

  /** What an accepted snapshot satisfies, whoever made it: the window of its own policy,
      the expected policy, a committed head with nothing after it up to the evaluation,
      the counters of the committed window, and the state they warrant. */
  ghost predicate HistoricallyBound(snapshot: Snapshot, rows: seq<LedgerRow>, p: AuthorityPolicy, head: Head, n: int) {
    && Commits(rows, head, n)
    && snapshot.historyStart == snapshot.evaluatedAt - p.windowSeconds as real
    && snapshot.policy == p
    && (forall i :: n <= i < |rows| ==> rows[i].event.occurredAt > snapshot.evaluatedAt)
    && Tallies(snapshot.counters, rows[..n], snapshot.historyStart, snapshot.evaluatedAt)
    && Warranted(p, snapshot.counters, snapshot.state, snapshot.multiplier, snapshot.reason)
  }

  lemma NoneUpTo(rows: seq<LedgerRow>, n: nat, t: real)
    requires n <= |rows|
    ensures !AnyAtOrBefore(rows[n..], t) <==> forall i :: n <= i < |rows| ==> rows[i].event.occurredAt > t
  {
    var tail := rows[n..];
    assert forall i :: 0 <= i < |tail| ==> tail[i] == rows[n + i];
    assert forall i :: n <= i < |rows| ==> rows[i] == tail[i - n];
  }

  /** The historical validator accepts exactly the bound snapshots, for every snapshot,
      rows, policy and head. */
  lemma HistoricalOkExactly(snapshot: Snapshot, rows: seq<LedgerRow>, p: AuthorityPolicy, head: Head)
    ensures HistoricalVerdictOf(snapshot, rows, p, head) == HistoricalOk <==>
              exists n :: HistoricallyBound(snapshot, rows, p, head, n)
  {
    CommitsExactly(rows, head);
    DerivesExactly(p, snapshot.counters, snapshot.state, snapshot.multiplier, snapshot.reason);
    if CommittedLength(rows, head).Some? {
      var n := CommittedLength(rows, head).value;
      RecountTallies(rows[..n], snapshot.historyStart, snapshot.evaluatedAt);
      NoneUpTo(rows, n, snapshot.evaluatedAt);
      assert HistoricalVerdictOf(snapshot, rows, p, head) == HistoricalOk <==>
               HistoricallyBound(snapshot, rows, p, head, n);
    }
  }

  /** What a refused snapshot names is wrong. */
  lemma HistoricalRefusalNames(snapshot: Snapshot, rows: seq<LedgerRow>, p: AuthorityPolicy, head: Head)
    ensures var onTime := snapshot.historyStart == snapshot.evaluatedAt - p.windowSeconds as real;
            match HistoricalVerdictOf(snapshot, rows, p, head)
            case HistoricalOk => true
            case BoundaryNotDerived => !onTime
            case PolicyMismatch => onTime && snapshot.policy != p
            case HeadMissing => onTime && head != Genesis && forall i :: 0 <= i < |rows| ==> rows[i].hash != head
            case HeadTimeInconsistent =>
              onTime && exists n, i :: Commits(rows, head, n) && n <= i < |rows|
                                       && rows[i].event.occurredAt <= snapshot.evaluatedAt
            case CountersDiffer =>
              onTime && exists n :: Commits(rows, head, n) && Miscounts(snapshot, rows[..n])
            case StateUnjustified => forall m, r :: !Warranted(p, snapshot.counters, snapshot.state, m, r)
            case MultiplierDiffers =>
              && (exists m, r :: Warranted(p, snapshot.counters, snapshot.state, m, r))
              && forall r :: !Warranted(p, snapshot.counters, snapshot.state, snapshot.multiplier, r)
            case ReasonDiffers =>
              && (exists r :: Warranted(p, snapshot.counters, snapshot.state, snapshot.multiplier, r))
              && !Warranted(p, snapshot.counters, snapshot.state, snapshot.multiplier, snapshot.reason)
  {
    CommitsExactly(rows, head);
    var (state, reason) := Derive(p, snapshot.counters);
    forall s, m, r
      ensures Warranted(p, snapshot.counters, s, m, r) <==> (s, r) == (state, reason) && m == p.Multiplier(s)
    {
      DerivesExactly(p, snapshot.counters, s, m, r);
    }
    assert Warranted(p, snapshot.counters, state, p.Multiplier(state), reason);
    if CommittedLength(rows, head).Some? {
      var n := CommittedLength(rows, head).value;
      RecountTallies(rows[..n], snapshot.historyStart, snapshot.evaluatedAt);
      NoneUpTo(rows, n, snapshot.evaluatedAt);
      assert Commits(rows, head, n);
    }
  }

  ghost predicate Miscounts(snapshot: Snapshot, rows: seq<LedgerRow>) {
    !Tallies(snapshot.counters, rows, snapshot.historyStart, snapshot.evaluatedAt)
  }

  method ValidateHistorical(snapshot: Snapshot, rows: seq<LedgerRow>, p: AuthorityPolicy, head: Head)
    returns (verdict: HistoricalVerdict)
    ensures verdict == HistoricalVerdictOf(snapshot, rows, p, head)
    ensures verdict == HistoricalOk <==> exists n :: HistoricallyBound(snapshot, rows, p, head, n)
  {
    HistoricalOkExactly(snapshot, rows, p, head);
    if snapshot.historyStart != snapshot.evaluatedAt - p.Window() {
      return BoundaryNotDerived;
    }
    if snapshot.policy != p {
      return PolicyMismatch;
    }
    var found, committed := CollectCommitted(rows, head);
    if !found {
      return HeadMissing;
    }
    var future := rows[|committed|..];
    for k := 0 to |future|
      invariant forall i :: 0 <= i < k ==> future[i].event.occurredAt > snapshot.evaluatedAt
    {
      if future[k].event.occurredAt <= snapshot.evaluatedAt {
        return HeadTimeInconsistent;
      }
    }
    var c := CountWindow(committed, snapshot.historyStart, snapshot.evaluatedAt);
    if snapshot.counters != c {
      return CountersDiffer;
    }
    var state, reason := ExpectedState(p, c);
    if snapshot.state != state {
      return StateUnjustified;
    }
    if snapshot.multiplier != p.Multiplier(state) {
      return MultiplierDiffers;
    }
    if snapshot.reason != reason {
      return ReasonDiffers;
    }
    return HistoricalOk;
  }

  /** The validators' own threshold chain. */
  method ExpectedState(p: AuthorityPolicy, c: Counters) returns (state: AuthorityState, reason: Reason)
    ensures (state, reason) == Derive(p, c)
  {
    if c.critical >= p.suspensionCritical {
      return Suspended, CriticalObserved;
    } else if c.adverse >= p.limitedAdverse {
      return Limited, AdverseThreshold;
    } else if c.successes >= p.standardSuccesses && c.adverse <= 1 {
      return Elevated, SuccessThreshold;
    } else if c.successes >= p.probationSuccesses && c.adverse <= 1 {
      return Standard, ProbationThreshold;
    }
    return Probation, InsufficientHistory;
  }

  // ---------------------------------------------------- live counts and replayed counts

  /** An event the live service counts although it lies after the evaluation. */
  predicate Postdated(e: Event, from: real, now: real) {
    from <= e.occurredAt && e.occurredAt > now
  }

  ghost predicate NonePostdated(events: seq<Event>, from: real, now: real) {
    forall e :: e in events ==> !Postdated(e, from, now)
  }

  ghost function Surplus(events: seq<Event>, from: real, now: real): nat {
    if events == [] then 0
    else Surplus(events[..|events| - 1], from, now) + if Postdated(Last(events), from, now) then 1 else 0
  }

  lemma {:induction false} SurplusCounts(events: seq<Event>, from: real, now: real)
    requires forall e :: e in events ==> Recordable(e)
    ensures var live, replayed := CountFrom(events, from, None), CountFrom(events, from, Some(now));
            live.successes + live.adverse == replayed.successes + replayed.adverse + Surplus(events, from, now)
    ensures Surplus(events, from, now) == 0 ==> CountFrom(events, from, None) == CountFrom(events, from, Some(now))
    ensures Surplus(events, from, now) == 0 <==> NonePostdated(events, from, now)
  {
    if events != [] {
      var front := events[..|events| - 1];
      assert events == front + [Last(events)];
      assert Last(events) in events;
      SurplusCounts(front, from, now);
    }
  }

  /** The unbounded live count and the bounded recount agree exactly when no
      counted event lies after the evaluation. */
  lemma CountsAgreeExactly(events: seq<Event>, from: real, now: real)
    requires forall e :: e in events ==> Recordable(e)
    ensures CountFrom(events, from, None) == CountFrom(events, from, Some(now)) <==> NonePostdated(events, from, now)
  {
    SurplusCounts(events, from, now);
  }

  lemma HeadCommitsPrefix(before: seq<LedgerRow>, rows: seq<LedgerRow>, s: Scope)
    requires SoundRows(rows, s) && before <= rows
    ensures CommittedLength(rows, HeadOf(before)) == Some(|before|)
  {
    if before != [] {
      var k := |before| - 1;
      assert rows[k] == before[k];
      var i := FirstWith(rows, HeadOf(before));
      assert rows[i] in rows && rows[k] in rows;
      assert rows[i].hash == rows[k].hash;
      assert OfScope(s, rows[i]) && OfScope(s, rows[k]);
    }
  }

  /** The store `later` only adds to `earlier`. */
  ghost predicate Follows(earlier: Db, later: Db) {
    Coupled(earlier) && Coupled(later) && earlier.ledger <= later.ledger && earlier.resets <= later.resets
  }

  lemma {:induction false} RowsPrefix(a: seq<LedgerRow>, b: seq<LedgerRow>, s: Scope)
    requires a <= b
    ensures RowsOf(a, s) <= RowsOf(b, s)
    decreases |b|
  {
    if |a| == |b| {
      assert a == b;
    } else {
      RowsPrefix(a, b[..|b| - 1], s);
    }
  }

  /** Rows of the scope recorded after the snapshot. */
  ghost function LaterRows(earlier: Db, later: Db, s: Scope): seq<LedgerRow>
    requires Follows(earlier, later)
  {
    RowsPrefix(earlier.ledger, later.ledger, s);
    RowsOf(later.ledger, s)[|RowsOf(earlier.ledger, s)|..]
  }

  lemma {:induction false} EventsOfAreEvents(events: seq<Event>, s: Scope)
    ensures forall e :: e in EventsOf(events, s) ==> e in events
  {
    if events != [] {
      EventsOfAreEvents(events[..|events| - 1], s);
      assert events == events[..|events| - 1] + [Last(events)];
    }
  }

  lemma {:induction false} RowsBeyond(a: seq<LedgerRow>, b: seq<LedgerRow>, s: Scope, now: real)
    requires a <= b && forall m :: |a| <= m < |b| ==> b[m].event.occurredAt > now
    ensures RowsOf(a, s) <= RowsOf(b, s)
    ensures !AnyAtOrBefore(RowsOf(b, s)[|RowsOf(a, s)|..], now)
    decreases |b|
  {
    if |a| == |b| {
      assert a == b;
    } else {
      var front := b[..|b| - 1];
      assert forall m :: |a| <= m < |front| ==> front[m] == b[m];
      RowsBeyond(a, front, s, now);
      var n, rows, longer := |RowsOf(a, s)|, RowsOf(front, s), RowsOf(b, s);
      forall i | 0 <= i < |longer| - n ensures longer[n..][i].event.occurredAt > now {
        if n + i < |rows| {
          assert longer[n..][i] == rows[n..][i];
        }
      }
    }
  }

  /** A later ledger still yields the rows a head committed to, and they hold the
      events of the store the head was read from. */
  lemma LedgerRecount(db: Db, later: Db, s: Scope)
    requires Follows(db, later)
    ensures var before, rows := RowsOf(db.ledger, s), RowsOf(later.ledger, s);
            && before <= rows
            && CommittedLength(rows, HeadOf(before)) == Some(|before|)
            && rows[|before|..] == LaterRows(db, later, s)
            && ChainValid(rows)
            && EventsIn(rows[..|before|]) == EventsOf(db.events, s)
  {
    var before, rows := RowsOf(db.ledger, s), RowsOf(later.ledger, s);
    ScopeRowsSound(db, s);
    ScopeRowsSound(later, s);
    RowsPrefix(db.ledger, later.ledger, s);
    HeadCommitsPrefix(before, rows, s);
    assert rows[..|before|] == before;
  }

  lemma EventsAreRecordable(db: Db, s: Scope)
    requires Coupled(db)
    ensures forall e :: e in EventsOf(db.events, s) ==> Recordable(e)
  {
    ScopeRowsSound(db, s);
    RecordedAreRecordable(RowsOf(db.ledger, s), s);
  }

  lemma RecordedAreRecordable(rows: seq<LedgerRow>, s: Scope)
    requires SoundRows(rows, s)
    ensures forall e :: e in EventsIn(rows) ==> Recordable(e)
  {
    forall e | e in EventsIn(rows) ensures Recordable(e) {
      var i :| 0 <= i < |rows| && EventsIn(rows)[i] == e;
      assert rows[i] in rows;
    }
  }

  /** What the service counted in one store is what a validator recounts up to the
      evaluation from the rows another store's head commits to. */
  ghost predicate CountsAgree(counted: Db, headed: Db, s: Scope, from: real, now: real) {
    CountFrom(EventsOf(counted.events, s), from, None) == CountFrom(EventsOf(headed.events, s), from, Some(now))
  }

  lemma UninterruptedCountsAgree(db: Db, s: Scope, from: real, now: real)
    requires Coupled(db)
    ensures CountsAgree(db, db, s, from, now) <==> NonePostdated(EventsOf(db.events, s), from, now)
  {
    EventsAreRecordable(db, s);
    CountsAgreeExactly(EventsOf(db.events, s), from, now);
  }

  /** Exactly when the historical validator accepts a snapshot whose reads saw
      different stores, against any ledger that extends the last one: the boundary is
      the policy's own, no suspension was re-observed, no event was recorded later
      with a time up to the evaluation, and the counts agree. */
  lemma SplitHistoricalExactly(bounded: Db, counted: Db, recalled: Db, headed: Db, later: Db, p: AuthorityPolicy,
                               s: Scope, now: real)
    requires Follows(headed, later)
    ensures var snapshot, start := SplitSnapshot(bounded, counted, recalled, headed, p, s, now),
                                   HistoryStart(bounded, p, s, now);
            HistoricalVerdictOf(snapshot, RowsOf(later.ledger, s), p, snapshot.head) == HistoricalOk <==>
              && start == now - p.Window()
              && !Stuck(bounded, recalled, s)
              && !AnyAtOrBefore(LaterRows(headed, later, s), now)
              && CountsAgree(counted, headed, s, start, now)
  {
    var snapshot := SplitSnapshot(bounded, counted, recalled, headed, p, s, now);
    var before, rows := RowsOf(headed.ledger, s), RowsOf(later.ledger, s);
    LedgerRecount(headed, later, s);
    VerdictOfCommitted(snapshot, rows, |before|, p);
  }

  /** The verdict on a snapshot whose head commits to the first `n` rows. */
  lemma VerdictOfCommitted(snapshot: Snapshot, rows: seq<LedgerRow>, n: nat, p: AuthorityPolicy)
    requires CommittedLength(rows, snapshot.head) == Some(n) && snapshot.policy == p
    ensures HistoricalVerdictOf(snapshot, rows, p, snapshot.head) == HistoricalOk <==>
              && snapshot.historyStart == snapshot.evaluatedAt - p.Window()
              && !AnyAtOrBefore(rows[n..], snapshot.evaluatedAt)
              && snapshot.counters
                 == CountFrom(EventsIn(rows[..n]), snapshot.historyStart, Some(snapshot.evaluatedAt))
              && DerivedVerdict(snapshot, p, Derive(p, snapshot.counters)) == HistoricalOk
  {
  }

  /** Exactly when the historical validator accepts a live snapshot, for every
      store the service can reach and every store that can follow it: the
      boundary is the policy's own, no counted event lies after the evaluation,
      no event was recorded later with an earlier time, and the snapshot was not
      a sticky re-observation of a suspension. */
  lemma HistoricalAcceptsExactly(db: Db, later: Db, p: AuthorityPolicy, s: Scope, now: real)
    requires Follows(db, later)
    ensures var snapshot := SnapshotOf(db, p, s, now);
            HistoricalVerdictOf(snapshot, RowsOf(later.ledger, s), p, snapshot.head) == HistoricalOk
            <==>
              && HistoryStart(db, p, s, now) == now - p.Window()
              && NonePostdated(EventsOf(db.events, s), HistoryStart(db, p, s, now), now)
              && !AnyAtOrBefore(LaterRows(db, later, s), now)
              && !Sticky(db, s)
  {
    SplitHistoricalExactly(db, db, db, db, later, p, s, now);
    UninterruptedCountsAgree(db, s, HistoryStart(db, p, s, now), now);
  }

  /** Everything of the scope recorded between two stores lies after `now`. */
  ghost predicate RecordedAfter(counted: Db, headed: Db, s: Scope, now: real) {
    && counted.events <= headed.events
    && forall k :: |counted.events| <= k < |headed.events| && headed.events[k].scope == s ==>
         headed.events[k].occurredAt > now
  }

  lemma {:induction false} LateEventsIgnored(a: seq<Event>, b: seq<Event>, s: Scope, from: real, now: real)
    requires a <= b && forall k :: |a| <= k < |b| && b[k].scope == s ==> b[k].occurredAt > now
    ensures CountFrom(EventsOf(b, s), from, Some(now)) == CountFrom(EventsOf(a, s), from, Some(now))
    decreases |b|
  {
    if |a| == |b| {
      assert a == b;
    } else {
      var front, e := b[..|b| - 1], Last(b);
      LateEventsIgnored(a, front, s, from, now);
      var mine := EventsOf(front, s);
      assert (mine + [e])[..|mine|] == mine && mine + [] == mine;
    }
  }

  /** A head read after the events: when everything recorded in between is later than
      the evaluation, the counts agree exactly if no counted event is. */
  lemma StampedCountsAgree(counted: Db, headed: Db, s: Scope, from: real, now: real)
    requires Coupled(counted) && RecordedAfter(counted, headed, s, now)
    ensures CountsAgree(counted, headed, s, from, now) <==> NonePostdated(EventsOf(counted.events, s), from, now)
  {
    LateEventsIgnored(counted.events, headed.events, s, from, now);
    UninterruptedCountsAgree(counted, s, from, now);
  }

  /** Determinism: two snapshots accepted against the same ledger, policy, head
      and evaluation time agree on everything that matters. */
  lemma HistoricalIsDeterministic(a: Snapshot, b: Snapshot, rows: seq<LedgerRow>, p: AuthorityPolicy, head: Head)
    requires HistoricalVerdictOf(a, rows, p, head) == HistoricalOk
    requires HistoricalVerdictOf(b, rows, p, head) == HistoricalOk
    requires a.evaluatedAt == b.evaluatedAt
    ensures a.counters == b.counters && a.state == b.state && a.multiplier == b.multiplier && a.reason == b.reason
  {
  }

  // --------------------------------------------------------------------- replay

  datatype ReplayVerdict =
    | ReplayOk | LedgerInvalid | ReplayHeadMissing | AuthorizationInvalid | SnapshotHeadDiffers | PolicyBindingDiffers
    | WindowInvalid | BoundaryInconsistent | ReplayCountersDiffer | SuspensionUnjustified | ReplayMultiplierDiffers

  /** `ORDER BY issued_at DESC, epoch DESC LIMIT 1` among resets issued by `t`. */
  function LatestAt(resets: seq<Reset>, t: real): Option<Reset> {
    if resets == [] then None
    else
      var best, r := LatestAt(resets[..|resets| - 1], t), Last(resets);
      if r.issuedAt <= t && (best.None? || r.issuedAt > best.value.issuedAt
                             || (r.issuedAt == best.value.issuedAt && r.epoch >= best.value.epoch))
      then Some(r) else best
  }

  function ExpectedStart(resets: seq<Reset>, p: AuthorityPolicy, t: real): real {
    var r := LatestAt(resets, t);
    if r.None? then t - p.Window() else MaxReal(t - p.Window(), r.value.issuedAt)
  }

  ghost function ReplayVerdictOf(rows: seq<LedgerRow>, resets: seq<Reset>, snapshot: Snapshot,
                           p: AuthorityPolicy, head: Head, authorizationOk: bool): ReplayVerdict
  {
    if !ChainValid(rows) then LedgerInvalid
    else if CommittedLength(rows, head).None? then ReplayHeadMissing
    else if !authorizationOk then AuthorizationInvalid
    else if snapshot.head != head then SnapshotHeadDiffers
    else if snapshot.policy != p then PolicyBindingDiffers
    else if p.windowSeconds < 0 then WindowInvalid
    else if snapshot.historyStart != ExpectedStart(resets, p, snapshot.evaluatedAt) then BoundaryInconsistent
    else
      var c := CountFrom(EventsIn(rows[..CommittedLength(rows, head).value]), snapshot.historyStart,
                         Some(snapshot.evaluatedAt));
      if snapshot.counters != c then ReplayCountersDiffer
      else if snapshot.state == Suspended && c.critical < p.suspensionCritical then SuspensionUnjustified
      else if snapshot.multiplier != p.Multiplier(snapshot.state) then ReplayMultiplierDiffers
      else ReplayOk
  }

  /** The later of the window and the last reset issued by the evaluation. */
  ghost predicate StartsRight(start: real, resets: seq<Reset>, window: real, evaluatedAt: real) {
    && start >= window
    && (forall r :: r in resets && r.issuedAt <= evaluatedAt ==> start >= r.issuedAt)
    && (start == window || exists r :: r in resets && r.issuedAt <= evaluatedAt && start == r.issuedAt)
  }

  /** What a replayed decision satisfies, whoever made the snapshot: an intact chain, a
      committed head, a valid authorization, the expected head and policy, a window that
      starts where the policy and the resets put it, the counters of the committed window,
      no suspension without critical outcomes, and the multiplier of its state. */
  ghost predicate Replayable(rows: seq<LedgerRow>, resets: seq<Reset>, snapshot: Snapshot, p: AuthorityPolicy,
                             head: Head, authorizationOk: bool, n: int)
  {
    && Intact(rows) && Commits(rows, head, n)
    && authorizationOk && snapshot.head == head && snapshot.policy == p && p.windowSeconds >= 0
    && StartsRight(snapshot.historyStart, resets, snapshot.evaluatedAt - p.windowSeconds as real, snapshot.evaluatedAt)
    && Tallies(snapshot.counters, rows[..n], snapshot.historyStart, snapshot.evaluatedAt)
    && match snapshot.state
       case Suspended => snapshot.counters.critical >= p.suspensionCritical && snapshot.multiplier == 0.0
       case Probation => snapshot.multiplier == p.probationMultiplier
       case Limited => snapshot.multiplier == p.limitedMultiplier
       case Standard => snapshot.multiplier == p.standardMultiplier
       case Elevated => snapshot.multiplier == p.elevatedMultiplier
  }

  lemma {:induction false} LatestAtIsLatest(resets: seq<Reset>, t: real)
    ensures LatestAt(resets, t).None? ==> forall r :: r in resets ==> r.issuedAt > t
    ensures LatestAt(resets, t).Some? ==>
              && LatestAt(resets, t).value in resets && LatestAt(resets, t).value.issuedAt <= t
              && forall r :: r in resets && r.issuedAt <= t ==> r.issuedAt <= LatestAt(resets, t).value.issuedAt
  {
    if resets != [] {
      LatestAtIsLatest(resets[..|resets| - 1], t);
      assert resets == resets[..|resets| - 1] + [Last(resets)];
    }
  }

  lemma StartsRightExactly(start: real, resets: seq<Reset>, p: AuthorityPolicy, t: real)
    ensures start == ExpectedStart(resets, p, t) <==> StartsRight(start, resets, t - p.windowSeconds as real, t)
  {
    LatestAtIsLatest(resets, t);
  }

  /** Numbered from one, each naming the hash before it and carrying its own event's. */
  ghost predicate Intact(rows: seq<LedgerRow>) {
    forall i :: 0 <= i < |rows| ==>
      && rows[i].sequence == i + 1 && rows[i].hash == EventHash(rows[i].event)
      && rows[i].prev == if i == 0 then Genesis else rows[i - 1].hash
  }

  lemma IntactExactly(rows: seq<LedgerRow>)
    ensures ChainValid(rows) <==> Intact(rows)
  {
    if ChainValid(rows) {
      forall i | 0 <= i < |rows|
        ensures rows[i].sequence == i + 1 && rows[i].hash == EventHash(rows[i].event)
        ensures rows[i].prev == if i == 0 then Genesis else rows[i - 1].hash
      {
        assert RowChained(rows, i);
      }
    }
    if Intact(rows) {
      forall i | 0 <= i < |rows| ensures RowChained(rows, i) {
        assert rows[i].prev == if i == 0 then Genesis else rows[i - 1].hash;
        assert HeadOf(rows[..i]) == if i == 0 then Genesis else rows[i - 1].hash;
      }
    }
  }

  /** Replay accepts exactly the replayable decisions, for every snapshot, rows, resets,
      policy and head. */
  lemma ReplayOkExactly(rows: seq<LedgerRow>, resets: seq<Reset>, snapshot: Snapshot, p: AuthorityPolicy, head: Head,
                        authorizationOk: bool)
    ensures ReplayVerdictOf(rows, resets, snapshot, p, head, authorizationOk) == ReplayOk <==>
              exists n :: Replayable(rows, resets, snapshot, p, head, authorizationOk, n)
  {
    IntactExactly(rows);
    CommitsExactly(rows, head);
    StartsRightExactly(snapshot.historyStart, resets, p, snapshot.evaluatedAt);
    if CommittedLength(rows, head).Some? {
      var n := CommittedLength(rows, head).value;
      RecountTallies(rows[..n], snapshot.historyStart, snapshot.evaluatedAt);
      assert ReplayVerdictOf(rows, resets, snapshot, p, head, authorizationOk) == ReplayOk <==>
               Replayable(rows, resets, snapshot, p, head, authorizationOk, n);
    }
  }

  /** What a refused replay names is wrong. */
  lemma ReplayRefusalNames(rows: seq<LedgerRow>, resets: seq<Reset>, snapshot: Snapshot, p: AuthorityPolicy, head: Head,
                           authorizationOk: bool)
    ensures match ReplayVerdictOf(rows, resets, snapshot, p, head, authorizationOk)
            case ReplayOk => true
            case LedgerInvalid => !Intact(rows)
            case ReplayHeadMissing =>
              Intact(rows) && head != Genesis && forall i :: 0 <= i < |rows| ==> rows[i].hash != head
            case AuthorizationInvalid => Intact(rows) && !authorizationOk
            case SnapshotHeadDiffers => authorizationOk && snapshot.head != head
            case PolicyBindingDiffers => authorizationOk && snapshot.head == head && snapshot.policy != p
            case WindowInvalid => snapshot.policy == p && p.windowSeconds < 0
            case BoundaryInconsistent =>
              p.windowSeconds >= 0
              && !StartsRight(snapshot.historyStart, resets, snapshot.evaluatedAt - p.windowSeconds as real,
                              snapshot.evaluatedAt)
            case ReplayCountersDiffer => exists n :: Commits(rows, head, n) && Miscounts(snapshot, rows[..n])
            case SuspensionUnjustified =>
              snapshot.state == Suspended && snapshot.counters.critical < p.suspensionCritical
            case ReplayMultiplierDiffers =>
              match snapshot.state
              case Suspended => snapshot.multiplier != 0.0
              case Probation => snapshot.multiplier != p.probationMultiplier
              case Limited => snapshot.multiplier != p.limitedMultiplier
              case Standard => snapshot.multiplier != p.standardMultiplier
              case Elevated => snapshot.multiplier != p.elevatedMultiplier
  {
    IntactExactly(rows);
    CommitsExactly(rows, head);
    StartsRightExactly(snapshot.historyStart, resets, p, snapshot.evaluatedAt);
    if CommittedLength(rows, head).Some? {
      var n := CommittedLength(rows, head).value;
      RecountTallies(rows[..n], snapshot.historyStart, snapshot.evaluatedAt);
      assert Commits(rows, head, n);
    }
  }

  /** `replay_authority_decision` on the scope's rows and resets;
      `authorizationOk` is the outcome of the signature and binding checks. */
  method Replay(rows: seq<LedgerRow>, resets: seq<Reset>, snapshot: Snapshot, p: AuthorityPolicy, head: Head,
                authorizationOk: bool) returns (verdict: ReplayVerdict)
    ensures verdict == ReplayVerdictOf(rows, resets, snapshot, p, head, authorizationOk)
    ensures verdict == ReplayOk <==> exists n :: Replayable(rows, resets, snapshot, p, head, authorizationOk, n)
  {
    ReplayOkExactly(rows, resets, snapshot, p, head, authorizationOk);
    var chainValid := VerifyLedger(rows);
    if !chainValid {
      return LedgerInvalid;
    }
    var found, committed := CollectCommitted(rows, head);
    if !found {
      return ReplayHeadMissing;
    }
    if !authorizationOk {
      return AuthorizationInvalid;
    }
    if snapshot.head != head {
      return SnapshotHeadDiffers;
    }
    if snapshot.policy != p {
      return PolicyBindingDiffers;
    }
    if p.windowSeconds < 0 {
      return WindowInvalid;
    }
    if snapshot.historyStart != ExpectedStart(resets, p, snapshot.evaluatedAt) {
      return BoundaryInconsistent;
    }
    var c := CountWindow(committed, snapshot.historyStart, snapshot.evaluatedAt);
    if snapshot.counters != c {
      return ReplayCountersDiffer;
    }
    if snapshot.state == Suspended && c.critical < p.suspensionCritical {
      return SuspensionUnjustified;
    }
    if snapshot.multiplier != p.Multiplier(snapshot.state) {
      return ReplayMultiplierDiffers;
    }
    return ReplayOk;
  }

  ghost predicate IssueTimesIncrease(rs: seq<Reset>) {
    forall i, j :: 0 <= i < j < |rs| ==> rs[i].issuedAt < rs[j].issuedAt
  }

  /** Exactly when the replayed boundary is the live one: no reset known to the
      live service carries a later time, and every reset added afterwards is
      either later than the evaluation or older than the window. */
  ghost predicate BoundaryStable(rs: seq<Reset>, later: seq<Reset>, p: AuthorityPolicy, now: real)
    requires rs <= later
  {
    && (rs != [] ==> Last(rs).issuedAt <= now)
    && (forall i :: |rs| <= i < |later| ==> later[i].issuedAt > now || later[i].issuedAt <= now - p.Window())
  }

  lemma {:induction false} LatestAtBounds(rs: seq<Reset>, t: real)
    ensures LatestAt(rs, t).Some? ==> LatestAt(rs, t).value in rs && LatestAt(rs, t).value.issuedAt <= t
  {
    if rs != [] {
      LatestAtBounds(rs[..|rs| - 1], t);
      assert rs == rs[..|rs| - 1] + [Last(rs)];
    }
  }

  lemma {:induction false} BoundaryExact(rs: seq<Reset>, later: seq<Reset>, p: AuthorityPolicy, now: real)
    requires rs <= later && IssueTimesIncrease(later) && p.windowSeconds >= 0
    ensures ExpectedStart(later, p, now) == StartFrom(p, now, LastReset(rs)) <==> BoundaryStable(rs, later, p, now)
    decreases |later|
  {
    if |later| == |rs| {
      assert later == rs;
      BoundaryOfSame(rs, p, now);
    } else {
      var front, r := later[..|later| - 1], Last(later);
      assert rs <= front;
      BoundaryExact(rs, front, p, now);
      assert forall i :: 0 <= i < |front| ==> later[i] == front[i];
      assert later[|front|] == r;
      if r.issuedAt <= now {
        LatestIsLast(later, now);
        assert rs != [] ==> Last(rs) == later[|rs| - 1] && Last(rs).issuedAt < r.issuedAt;
      }
    }
  }

  lemma BoundaryOfSame(rs: seq<Reset>, p: AuthorityPolicy, now: real)
    requires IssueTimesIncrease(rs) && p.windowSeconds >= 0
    ensures ExpectedStart(rs, p, now) == StartFrom(p, now, LastReset(rs)) <==> (rs != [] ==> Last(rs).issuedAt <= now)
  {
    LatestAtBounds(rs, now);
    if rs != [] && Last(rs).issuedAt <= now {
      LatestIsLast(rs, now);
    }
  }

  lemma LatestIsLast(rs: seq<Reset>, t: real)
    requires rs != [] && IssueTimesIncrease(rs) && Last(rs).issuedAt <= t
    ensures LatestAt(rs, t) == Some(Last(rs))
  {
    var front := rs[..|rs| - 1];
    LatestAtBounds(front, t);
    if LatestAt(front, t).Some? {
      var i :| 0 <= i < |front| && front[i] == LatestAt(front, t).value;
      assert rs[i].issuedAt < rs[|rs| - 1].issuedAt;
    }
  }

  lemma {:induction false} ResetsPrefix(a: seq<Reset>, b: seq<Reset>, s: Scope)
    requires a <= b
    ensures ResetsOf(a, s) <= ResetsOf(b, s)
    decreases |b|
  {
    if |a| == |b| {
      assert a == b;
    } else {
      ResetsPrefix(a, b[..|b| - 1], s);
    }
  }

  /** Exactly when replay accepts, under a valid authorization, a snapshot whose
      reads saw different stores, against any ledger and resets that extend them. */
  lemma SplitReplayExactly(bounded: Db, counted: Db, recalled: Db, headed: Db, later: Db, p: AuthorityPolicy,
                           s: Scope, now: real)
    requires Follows(headed, later) && bounded.resets <= later.resets && IssueTimesIncrease(ResetsOf(later.resets, s))
    ensures ResetsOf(bounded.resets, s) <= ResetsOf(later.resets, s)
    ensures var snapshot, start := SplitSnapshot(bounded, counted, recalled, headed, p, s, now),
                                   HistoryStart(bounded, p, s, now);
            ReplayVerdictOf(RowsOf(later.ledger, s), ResetsOf(later.resets, s), snapshot, p, snapshot.head, true)
                == ReplayOk <==>
              && p.windowSeconds >= 0
              && BoundaryStable(ResetsOf(bounded.resets, s), ResetsOf(later.resets, s), p, now)
              && CountsAgree(counted, headed, s, start, now)
              && (Stuck(bounded, recalled, s) ==> snapshot.counters.critical >= p.suspensionCritical)
  {
    ResetsPrefix(bounded.resets, later.resets, s);
    ReplayCounts(bounded, counted, recalled, headed, later, p, s, now);
    if p.windowSeconds >= 0 {
      BoundaryExact(ResetsOf(bounded.resets, s), ResetsOf(later.resets, s), p, now);
    }
  }

  /** The replay of a snapshot up to the boundary comparison. */
  lemma ReplayCounts(bounded: Db, counted: Db, recalled: Db, headed: Db, later: Db, p: AuthorityPolicy, s: Scope,
                     now: real)
    requires Follows(headed, later)
    ensures var snapshot, start := SplitSnapshot(bounded, counted, recalled, headed, p, s, now),
                                   HistoryStart(bounded, p, s, now);
            ReplayVerdictOf(RowsOf(later.ledger, s), ResetsOf(later.resets, s), snapshot, p, snapshot.head, true)
                == ReplayOk
            <==>
              && p.windowSeconds >= 0
              && start == ExpectedStart(ResetsOf(later.resets, s), p, now)
              && CountsAgree(counted, headed, s, start, now)
              && (Stuck(bounded, recalled, s) ==> snapshot.counters.critical >= p.suspensionCritical)
  {
    LedgerRecount(headed, later, s);
  }

  /** Exactly when replay accepts a live snapshot under a valid authorization, for
      every store and every store that can follow it, resets included. */
  lemma ReplayAcceptsExactly(db: Db, later: Db, p: AuthorityPolicy, s: Scope, now: real)
    requires Follows(db, later) && IssueTimesIncrease(ResetsOf(later.resets, s))
    ensures ResetsOf(db.resets, s) <= ResetsOf(later.resets, s)
    ensures var snapshot := SnapshotOf(db, p, s, now);
            var rows := RowsOf(later.ledger, s);
            ReplayVerdictOf(rows, ResetsOf(later.resets, s), snapshot, p, snapshot.head, true) == ReplayOk
            <==>
              && p.windowSeconds >= 0
              && BoundaryStable(ResetsOf(db.resets, s), ResetsOf(later.resets, s), p, now)
              && NonePostdated(EventsOf(db.events, s), HistoryStart(db, p, s, now), now)
              && (Sticky(db, s) ==> snapshot.counters.critical >= p.suspensionCritical)
  {
    SplitReplayExactly(db, db, db, db, later, p, s, now);
    UninterruptedCountsAgree(db, s, HistoryStart(db, p, s, now), now);
  }

  // --------------------------------------------------------- learning validator

  datatype OutcomeStatus = Succeeded | FailedOutcome | OtherOutcome

  datatype Claim = Claim(status: OutcomeStatus, agentId: string, claimId: string)

  datatype Attestation = Attestation(attestationId: string, attestorType: string)

  datatype LearningVerdict =
    | LearningOk | NoTerminalOutcome | EventScopeDiffers | EventIdentityDiffers | EventTypeDiffers
    | EventEvidenceDiffers
    | AttestationDiffers | AttestationTypeDiffers | LearningBoundaryNotDerived | LearningPolicyMismatch
    | AfterScopeDiffers | EventAbsentOrDuplicated | EventNotExact | AfterHeadDiffers | OutsideWindow
    | EvaluatedBeforeHistory | BeforeHeadDiffers | BeforeHeadMissing | DoesNotExtendHead | NotHeadAtEvaluation
    | LearningCountersDiffer | Derivation(verdict: HistoricalVerdict)

  function ExpectedType(s: OutcomeStatus): Option<EventType> {
    match s
    case Succeeded => Some(ExecutionConfirmed)
    case FailedOutcome => Some(ExecutionFailed)
    case OtherOutcome => None
  }

  /** The event must be the one the outcome claim and attestation dictate. */
  function EvidenceVerdict(claim: Claim, attestation: Attestation, e: Event, before: Snapshot,
                           beforeIdentity: Option<string>): Option<LearningVerdict>
  {
    if ExpectedType(claim.status).None? then Some(NoTerminalOutcome)
    else if e.scope != Scope(claim.agentId, before.scope.capabilityId) then Some(EventScopeDiffers)
    else if beforeIdentity.Some? && e.identityId != beforeIdentity then Some(EventIdentityDiffers)
    else if e.eventType != ExpectedType(claim.status).value then Some(EventTypeDiffers)
    else if e.evidenceRef != claim.claimId then Some(EventEvidenceDiffers)
    else if "outcome_attestation_id" in e.metadata && e.metadata["outcome_attestation_id"] != attestation.attestationId
      then Some(AttestationDiffers)
    else if "attestation_type" in e.metadata && e.metadata["attestation_type"] != attestation.attestorType
      then Some(AttestationTypeDiffers)
    else None
  }

  /** What the evidence must say: the outcome's type, the claim's agent under the
      history's capability, the known identity, the claim as evidence, and, where the
      event names them, the attestation and the attestor. */
  ghost predicate FollowsEvidence(claim: Claim, attestation: Attestation, e: Event, before: Snapshot,
                                  beforeIdentity: Option<string>)
  {
    && ((claim.status == Succeeded && e.eventType == ExecutionConfirmed)
        || (claim.status == FailedOutcome && e.eventType == ExecutionFailed))
    && e.scope.agentId == claim.agentId && e.scope.capabilityId == before.scope.capabilityId
    && (beforeIdentity == None || e.identityId == beforeIdentity)
    && e.evidenceRef == claim.claimId
    && ("outcome_attestation_id" in e.metadata ==> e.metadata["outcome_attestation_id"] == attestation.attestationId)
    && ("attestation_type" in e.metadata ==> e.metadata["attestation_type"] == attestation.attestorType)
  }

  lemma EvidenceExactly(claim: Claim, attestation: Attestation, e: Event, before: Snapshot,
                        beforeIdentity: Option<string>)
    ensures EvidenceVerdict(claim, attestation, e, before, beforeIdentity) == None <==>
              FollowsEvidence(claim, attestation, e, before, beforeIdentity)
  {
  }

  function Matching(rows: seq<LedgerRow>, id: string): seq<LedgerRow> {
    if rows == [] then []
    else Matching(rows[..|rows| - 1], id) + if Last(rows).eventId == id then [Last(rows)] else []
  }

  /** Sequence of the first row with the hash; zero when there is none. */
  function PriorSequence(rows: seq<LedgerRow>, head: Head): int {
    if FirstWith(rows, head) < |rows| then rows[FirstWith(rows, head)].sequence else 0
  }

  predicate AnyFutureAtOrBefore(rows: seq<LedgerRow>, sequence: int, t: real) {
    exists i :: 0 <= i < |rows| && rows[i].sequence > sequence && rows[i].event.occurredAt <= t
  }

  function LearningVerdictOf(claim: Claim, attestation: Attestation, e: Event, before: Snapshot,
                             beforeIdentity: Option<string>, after: Snapshot, rows: seq<LedgerRow>,
                             p: AuthorityPolicy, beforeHead: Head): LearningVerdict
  {
    if EvidenceVerdict(claim, attestation, e, before, beforeIdentity).Some? then
      EvidenceVerdict(claim, attestation, e, before, beforeIdentity).value
    else if after.historyStart != after.evaluatedAt - p.Window() then LearningBoundaryNotDerived
    else if after.policy != p then LearningPolicyMismatch
    else if after.scope != Scope(claim.agentId, before.scope.capabilityId) then AfterScopeDiffers
    else
      var placement := PlacementVerdict(e, before, after, rows, beforeHead);
      if placement.Some? then placement.value else LearnedVerdict(p, before.state, after, rows)
  }

  /** The event's place in the ledger, between the history's head and the head at
      the evaluation. */
  function PlacementVerdict(e: Event, before: Snapshot, after: Snapshot, rows: seq<LedgerRow>, beforeHead: Head)
    : Option<LearningVerdict>
  {
    if |Matching(rows, EventId(e))| != 1 then Some(EventAbsentOrDuplicated)
    else
      var row := Matching(rows, EventId(e))[0];
      if row.hash != EventHash(e) || row.event != e then Some(EventNotExact)
      else if after.head != EventHash(e) then Some(AfterHeadDiffers)
      else if e.occurredAt > after.evaluatedAt || e.occurredAt < after.historyStart then Some(OutsideWindow)
      else if before.evaluatedAt > after.evaluatedAt then Some(EvaluatedBeforeHistory)
      else if before.head != beforeHead then Some(BeforeHeadDiffers)
      else if beforeHead != Genesis && PriorSequence(rows, beforeHead) == 0 then Some(BeforeHeadMissing)
      else if row.sequence <= PriorSequence(rows, beforeHead) then Some(DoesNotExtendHead)
      else if AnyFutureAtOrBefore(rows, row.sequence, after.evaluatedAt) then Some(NotHeadAtEvaluation)
      else None
  }

  /** Counters, state, multiplier and reason recomputed from the whole ledger. */
  function LearnedVerdict(p: AuthorityPolicy, previous: AuthorityState, after: Snapshot,
                          rows: seq<LedgerRow>): LearningVerdict {
    var c := CountFrom(EventsIn(rows), after.historyStart, Some(after.evaluatedAt));
    if after.counters != c then LearningCountersDiffer
    else
      var d := DerivedVerdict(after, p, LearnedState(p, previous, c));
      if d == HistoricalOk then LearningOk else Derivation(d)
  }

  /** A suspended history stays suspended, otherwise the thresholds decide. */
  function LearnedState(p: AuthorityPolicy, previous: AuthorityState, c: Counters): (AuthorityState, Reason) {
    if previous == Suspended then (Suspended, SuspendedUntilReset) else Derive(p, c)
  }

  ghost predicate FirstRow(rows: seq<LedgerRow>, head: Head, i: int) {
    0 <= i < |rows| && rows[i].hash == head && forall j :: 0 <= j < i ==> rows[j].hash != head
  }

  ghost predicate OnlyRow(rows: seq<LedgerRow>, id: string, k: int) {
    0 <= k < |rows| && rows[k].eventId == id && forall i :: 0 <= i < |rows| && i != k ==> rows[i].eventId != id
  }

  /** Row `k` is the only one with the event's id and holds exactly the event, which is
      the "after" head and lies in its window. The history is evaluated no later and bound
      to its head, which is the start or the hash of a first row numbered before row `k`
      and not zero. Every row numbered after row `k` lies after the evaluation. */
  ghost predicate Placed(e: Event, before: Snapshot, after: Snapshot, rows: seq<LedgerRow>, beforeHead: Head, k: int) {
    && OnlyRow(rows, EventId(e), k) && rows[k].hash == EventHash(e) && rows[k].event == e
    && after.head == EventHash(e)
    && after.historyStart <= e.occurredAt <= after.evaluatedAt && before.evaluatedAt <= after.evaluatedAt
    && before.head == beforeHead
    && (if forall i :: 0 <= i < |rows| ==> rows[i].hash != beforeHead
        then beforeHead == Genesis && rows[k].sequence > 0
        else exists i :: FirstRow(rows, beforeHead, i) && rows[i].sequence < rows[k].sequence
                         && (beforeHead == Genesis || rows[i].sequence != 0))
    && forall i :: 0 <= i < |rows| && rows[i].sequence > rows[k].sequence ==>
         rows[i].event.occurredAt > after.evaluatedAt
  }

  /** What an accepted learning step satisfies, whoever made the snapshots: the evidence
      is followed, the "after" window and policy are the policy's own, the event is in
      place, the counters are those of the whole ledger, and a suspended history stays
      suspended, otherwise the counters warrant the state. */
  ghost predicate Learned(claim: Claim, attestation: Attestation, e: Event, before: Snapshot,
                          beforeIdentity: Option<string>, after: Snapshot, rows: seq<LedgerRow>,
                          p: AuthorityPolicy, beforeHead: Head, k: int)
  {
    && FollowsEvidence(claim, attestation, e, before, beforeIdentity)
    && after.historyStart == after.evaluatedAt - p.windowSeconds as real && after.policy == p
    && after.scope == e.scope
    && Placed(e, before, after, rows, beforeHead, k)
    && Tallies(after.counters, rows, after.historyStart, after.evaluatedAt)
    && if before.state == Suspended
       then after.state == Suspended && after.multiplier == 0.0 && after.reason == SuspendedUntilReset
       else Warranted(p, after.counters, after.state, after.multiplier, after.reason)
  }

  lemma {:induction false} MatchingOnly(rows: seq<LedgerRow>, id: string, k: int)
    requires OnlyRow(rows, id, k)
    ensures Matching(rows, id) == [rows[k]]
  {
    var front := rows[..|rows| - 1];
    if k < |front| {
      MatchingOnly(front, id, k);
    } else {
      MatchingNone(front, id);
    }
  }

  lemma {:induction false} MatchingNone(rows: seq<LedgerRow>, id: string)
    ensures Matching(rows, id) == [] <==> forall i :: 0 <= i < |rows| ==> rows[i].eventId != id
  {
    if rows != [] {
      var front := rows[..|rows| - 1];
      MatchingNone(front, id);
      assert forall i :: 0 <= i < |front| ==> front[i] == rows[i];
    }
  }

  lemma {:induction false} MatchingPlace(rows: seq<LedgerRow>, id: string) returns (k: int)
    requires |Matching(rows, id)| == 1
    ensures OnlyRow(rows, id, k)
  {
    var front := rows[..|rows| - 1];
    if Last(rows).eventId == id {
      k := |rows| - 1;
      MatchingNone(front, id);
    } else {
      k := MatchingPlace(front, id);
    }
  }

  method FindMatching(rows: seq<LedgerRow>, id: string) returns (matching: seq<LedgerRow>)
    ensures matching == Matching(rows, id)
  {
    matching := [];
    for k := 0 to |rows|
      invariant matching == Matching(rows[..k], id)
    {
      assert rows[..k + 1][..k] == rows[..k];
      if rows[k].eventId == id {
        matching := matching + [rows[k]];
      }
    }
    assert rows[..|rows|] == rows;
  }

  lemma PriorExactly(rows: seq<LedgerRow>, head: Head, sequence: int)
    ensures (head == Genesis || PriorSequence(rows, head) != 0) && PriorSequence(rows, head) < sequence <==>
              if forall i :: 0 <= i < |rows| ==> rows[i].hash != head then head == Genesis && sequence > 0
              else exists i :: FirstRow(rows, head, i) && rows[i].sequence < sequence
                               && (head == Genesis || rows[i].sequence != 0)
  {
    var first := FirstWith(rows, head);
    if first < |rows| {
      assert FirstRow(rows, head, first);
      assert forall i :: FirstRow(rows, head, i) ==> i == first;
    }
  }

  lemma PlacedExactly(e: Event, before: Snapshot, after: Snapshot, rows: seq<LedgerRow>, beforeHead: Head)
    ensures PlacementVerdict(e, before, after, rows, beforeHead) == None <==>
              exists k :: Placed(e, before, after, rows, beforeHead, k)
  {
    if |Matching(rows, EventId(e))| == 1 {
      var k := MatchingPlace(rows, EventId(e));
      MatchingOnly(rows, EventId(e), k);
      PriorExactly(rows, beforeHead, rows[k].sequence);
      assert PlacementVerdict(e, before, after, rows, beforeHead) == None
        <==> Placed(e, before, after, rows, beforeHead, k);
    }
    forall k | OnlyRow(rows, EventId(e), k) ensures Matching(rows, EventId(e)) == [rows[k]] {
      MatchingOnly(rows, EventId(e), k);
    }
  }

  lemma LearnedStateExactly(p: AuthorityPolicy, previous: AuthorityState, after: Snapshot, rows: seq<LedgerRow>)
    ensures LearnedVerdict(p, previous, after, rows) == LearningOk <==>
              && Tallies(after.counters, rows, after.historyStart, after.evaluatedAt)
              && if previous == Suspended
                 then after.state == Suspended && after.multiplier == 0.0 && after.reason == SuspendedUntilReset
                 else Warranted(p, after.counters, after.state, after.multiplier, after.reason)
  {
    RecountTallies(rows, after.historyStart, after.evaluatedAt);
    DerivesExactly(p, after.counters, after.state, after.multiplier, after.reason);
  }

  /** The learning validator accepts exactly the learned steps, for every evidence, pair
      of snapshots, rows, policy and head. */
  lemma LearningOkExactly(claim: Claim, attestation: Attestation, e: Event, before: Snapshot,
                          beforeIdentity: Option<string>, after: Snapshot, rows: seq<LedgerRow>, p: AuthorityPolicy,
                          beforeHead: Head)
    ensures LearningVerdictOf(claim, attestation, e, before, beforeIdentity, after, rows, p, beforeHead) == LearningOk
            <==> exists k :: Learned(claim, attestation, e, before, beforeIdentity, after, rows, p, beforeHead, k)
  {
    EvidenceExactly(claim, attestation, e, before, beforeIdentity);
    PlacedExactly(e, before, after, rows, beforeHead);
    LearnedStateExactly(p, before.state, after, rows);
    if LearningVerdictOf(claim, attestation, e, before, beforeIdentity, after, rows, p, beforeHead) == LearningOk {
      var k :| Placed(e, before, after, rows, beforeHead, k);
      assert Learned(claim, attestation, e, before, beforeIdentity, after, rows, p, beforeHead, k);
    }
  }

  /** What refused evidence names: the first comparison that fails. */
  lemma EvidenceRefusalNames(claim: Claim, attestation: Attestation, e: Event, before: Snapshot,
                             beforeIdentity: Option<string>)
    ensures var scoped := e.scope == Scope(claim.agentId, before.scope.capabilityId);
            var known := scoped && (beforeIdentity == None || e.identityId == beforeIdentity);
            var typed := known && ((claim.status == Succeeded && e.eventType == ExecutionConfirmed)
                                   || (claim.status == FailedOutcome && e.eventType == ExecutionFailed));
            match EvidenceVerdict(claim, attestation, e, before, beforeIdentity)
            case None => true
            case Some(NoTerminalOutcome) => claim.status != Succeeded && claim.status != FailedOutcome
            case Some(EventScopeDiffers) => !scoped
            case Some(EventIdentityDiffers) => scoped && !known
            case Some(EventTypeDiffers) => known && !typed
            case Some(EventEvidenceDiffers) => typed && e.evidenceRef != claim.claimId
            case Some(AttestationDiffers) =>
              typed && "outcome_attestation_id" in e.metadata
              && e.metadata["outcome_attestation_id"] != attestation.attestationId
            case Some(AttestationTypeDiffers) =>
              typed && "attestation_type" in e.metadata && e.metadata["attestation_type"] != attestation.attestorType
            case _ => false
  {
  }

  /** What a misplaced event names is wrong. */
  lemma PlacementRefusalNames(e: Event, before: Snapshot, after: Snapshot, rows: seq<LedgerRow>, beforeHead: Head)
    ensures match PlacementVerdict(e, before, after, rows, beforeHead)
            case None => true
            case Some(EventAbsentOrDuplicated) => forall k :: !OnlyRow(rows, EventId(e), k)
            case Some(EventNotExact) =>
              exists k :: OnlyRow(rows, EventId(e), k) && (rows[k].hash != EventHash(e) || rows[k].event != e)
            case Some(AfterHeadDiffers) => after.head != EventHash(e)
            case Some(OutsideWindow) =>
              after.head == EventHash(e) && !(after.historyStart <= e.occurredAt <= after.evaluatedAt)
            case Some(EvaluatedBeforeHistory) => e.occurredAt <= after.evaluatedAt < before.evaluatedAt
            case Some(BeforeHeadDiffers) => before.evaluatedAt <= after.evaluatedAt && before.head != beforeHead
            case Some(BeforeHeadMissing) => before.head == beforeHead != Genesis && PriorSequence(rows, beforeHead) == 0
            case Some(DoesNotExtendHead) =>
              exists k :: OnlyRow(rows, EventId(e), k) && rows[k].sequence <= PriorSequence(rows, beforeHead)
            case Some(NotHeadAtEvaluation) =>
              exists k, i :: OnlyRow(rows, EventId(e), k) && 0 <= i < |rows| && rows[i].sequence > rows[k].sequence
                             && rows[i].event.occurredAt <= after.evaluatedAt
            case _ => false
  {
    forall k | OnlyRow(rows, EventId(e), k) ensures Matching(rows, EventId(e)) == [rows[k]] {
      MatchingOnly(rows, EventId(e), k);
    }
    if |Matching(rows, EventId(e))| == 1 {
      var k := MatchingPlace(rows, EventId(e));
    }
  }

  /** What is named once the evidence is followed. */
  lemma LearningRefusalNames(claim: Claim, attestation: Attestation, e: Event, before: Snapshot,
                             beforeIdentity: Option<string>, after: Snapshot, rows: seq<LedgerRow>, p: AuthorityPolicy,
                             beforeHead: Head)
    requires FollowsEvidence(claim, attestation, e, before, beforeIdentity)
    ensures var placement := PlacementVerdict(e, before, after, rows, beforeHead);
            var verdict := LearningVerdictOf(claim, attestation, e, before, beforeIdentity, after, rows, p, beforeHead);
            var onTime := after.historyStart == after.evaluatedAt - p.windowSeconds as real;
            && (verdict == LearningBoundaryNotDerived <==> !onTime)
            && (verdict == LearningPolicyMismatch <==> onTime && after.policy != p)
            && (verdict == AfterScopeDiffers <==> onTime && after.policy == p && after.scope != e.scope)
            && (onTime && after.policy == p && after.scope == e.scope ==>
                  && (placement.Some? ==> verdict == placement.value)
                  && (placement == None ==>
                        && (verdict == LearningCountersDiffer <==>
                              !Tallies(after.counters, rows, after.historyStart, after.evaluatedAt))
                        && (verdict.LearningOk? || verdict.LearningCountersDiffer? || verdict.Derivation?)))
  {
    EvidenceExactly(claim, attestation, e, before, beforeIdentity);
    RecountTallies(rows, after.historyStart, after.evaluatedAt);
  }

  method ValidateLearning(claim: Claim, attestation: Attestation, e: Event, before: Snapshot,
                          beforeIdentity: Option<string>, after: Snapshot, rows: seq<LedgerRow>,
                          p: AuthorityPolicy, beforeHead: Head) returns (verdict: LearningVerdict)
    ensures verdict == LearningVerdictOf(claim, attestation, e, before, beforeIdentity, after, rows, p, beforeHead)
    ensures verdict == LearningOk <==>
              exists k :: Learned(claim, attestation, e, before, beforeIdentity, after, rows, p, beforeHead, k)
  {
    LearningOkExactly(claim, attestation, e, before, beforeIdentity, after, rows, p, beforeHead);
    var evidence := EvidenceVerdict(claim, attestation, e, before, beforeIdentity);
    if evidence.Some? {
      return evidence.value;
    }
    if after.historyStart != after.evaluatedAt - p.Window() {
      return LearningBoundaryNotDerived;
    }
    if after.policy != p {
      return LearningPolicyMismatch;
    }
    if after.scope != Scope(claim.agentId, before.scope.capabilityId) {
      return AfterScopeDiffers;
    }
    var placement := CheckPlacement(e, before, after, rows, beforeHead);
    if placement.Some? {
      return placement.value;
    }
    var c := CountWindow(rows, after.historyStart, after.evaluatedAt);
    if after.counters != c {
      return LearningCountersDiffer;
    }
    var state, reason := Suspended, SuspendedUntilReset;
    if before.state != Suspended {
      state, reason := ExpectedState(p, c);
    }
    if after.state != state {
      return Derivation(StateUnjustified);
    }
    if after.multiplier != p.Multiplier(state) {
      return Derivation(MultiplierDiffers);
    }
    if after.reason != reason {
      return Derivation(ReasonDiffers);
    }
    return LearningOk;
  }

  method CheckPlacement(e: Event, before: Snapshot, after: Snapshot, rows: seq<LedgerRow>, beforeHead: Head)
    returns (verdict: Option<LearningVerdict>)
    ensures verdict == PlacementVerdict(e, before, after, rows, beforeHead)
  {
    var matching := FindMatching(rows, EventId(e));
    if |matching| != 1 {
      return Some(EventAbsentOrDuplicated);
    }
    var row := matching[0];
    if row.hash != EventHash(e) || row.event != e {
      return Some(EventNotExact);
    }
    if after.head != EventHash(e) {
      return Some(AfterHeadDiffers);
    }
    if e.occurredAt > after.evaluatedAt || e.occurredAt < after.historyStart {
      return Some(OutsideWindow);
    }
    if before.evaluatedAt > after.evaluatedAt {
      return Some(EvaluatedBeforeHistory);
    }
    if before.head != beforeHead {
      return Some(BeforeHeadDiffers);
    }
    var prior := PriorSequence(rows, beforeHead);
    if beforeHead != Genesis && prior == 0 {
      return Some(BeforeHeadMissing);
    }
    if row.sequence <= prior {
      return Some(DoesNotExtendHead);
    }
    for k := 0 to |rows|
      invariant forall i :: 0 <= i < k && rows[i].sequence > row.sequence ==>
                  rows[i].event.occurredAt > after.evaluatedAt
    {
      if rows[k].sequence > row.sequence && rows[k].event.occurredAt <= after.evaluatedAt {
        return Some(NotHeadAtEvaluation);
      }
    }
    return None;
  }

  /** Where a just-recorded event stands in every later ledger of its scope: after
      the rows recorded before it, found by its id, and directly followed by what
      was recorded later. */
  lemma RecordedEventPlace(db: Db, e: Event, later: Db)
    requires Coupled(db) && Recordable(e) && !EventKnown(db.events, EventId(e))
    requires Follows(RecordEvent(db, e), later)
    ensures var n, rows := |RowsOf(db.ledger, e.scope)|, RowsOf(later.ledger, e.scope);
            && RowsOf(db.ledger, e.scope) <= rows
            && n < |rows| && rows[n].event == e && rows[n].eventId == EventId(e) && rows[n].hash == EventHash(e)
            && rows[n].sequence == n + 1
            && Matching(rows, EventId(e)) == [rows[n]]
            && HeadOf(RowsOf(RecordEvent(db, e).ledger, e.scope)) == EventHash(e)
            && |RowsOf(RecordEvent(db, e).ledger, e.scope)| == n + 1
  {
    var u := RecordEvent(db, e);
    KnownTogether(db, EventId(e));
    assert u.ledger[..|db.ledger|] == db.ledger;
    ScopeRowsSound(later, e.scope);
    RowsPrefix(u.ledger, later.ledger, e.scope);
    var n, rows := |RowsOf(db.ledger, e.scope)|, RowsOf(later.ledger, e.scope);
    assert RowsOf(u.ledger, e.scope) == RowsOf(db.ledger, e.scope) + [NextRow(db.ledger, e)];
    assert rows[n] == NextRow(db.ledger, e) && RowChained(rows, n);
    MatchingOnly(rows, EventId(e), n);
  }

  lemma GenesisIsNoHash(rows: seq<LedgerRow>, s: Scope)
    requires SoundRows(rows, s)
    ensures FirstWith(rows, Genesis) == |rows|
  {
    forall i | 0 <= i < |rows| ensures rows[i].hash != Genesis {
      assert rows[i] in rows && OfScope(s, rows[i]);
    }
  }

  /** The head of an earlier store lies strictly before the learning event. */
  lemma EarlierHeadPrecedes(earlier: seq<LedgerRow>, rows: seq<LedgerRow>, s: Scope)
    requires SoundRows(rows, s) && earlier <= rows
    ensures PriorSequence(rows, HeadOf(earlier)) == |earlier|
  {
    HeadCommitsPrefix(earlier, rows, s);
    if earlier != [] {
      assert earlier[|earlier| - 1] == rows[|earlier| - 1] && RowChained(rows, |earlier| - 1);
      assert rows[|earlier| - 1] in rows;
      assert OfScope(s, rows[|earlier| - 1]);
    } else {
      GenesisIsNoHash(rows, s);
    }
  }

  lemma {:induction false} FutureRowsIgnored(rows: seq<LedgerRow>, n: nat, from: real, t: real)
    requires n <= |rows| && !AnyAtOrBefore(rows[n..], t)
    ensures CountFrom(EventsIn(rows), from, Some(t)) == CountFrom(EventsIn(rows[..n]), from, Some(t))
    decreases |rows|
  {
    if n == |rows| {
      assert rows[..n] == rows;
    } else {
      var front := rows[..|rows| - 1];
      assert rows[n..][|rows| - 1 - n] == rows[|rows| - 1];
      assert forall i :: 0 <= i < |front| - n ==> front[n..][i] == rows[n..][i];
      assert front[..n] == rows[..n];
      FutureRowsIgnored(front, n, from, t);
      assert EventsIn(rows)[..|rows| - 1] == EventsIn(front);
    }
  }

  /** The learning step of the lifecycle: an event built from the claim is recorded
      for the first time and a snapshot is taken with no step between. */
  ghost predicate LearningStep(db: Db, e: Event, claim: Claim, attestation: Attestation, before: Snapshot,
                               beforeIdentity: Option<string>, earlier: Db)
  {
    && Coupled(db) && Recordable(e) && !EventKnown(db.events, EventId(e))
    && FollowsEvidence(claim, attestation, e, before, beforeIdentity)
    && Follows(earlier, db) && before.head == HeadOf(RowsOf(earlier.ledger, e.scope))
  }

  /** Exactly when the learning validator accepts such a step followed by a snapshot
      whose reads saw different stores, for every later ledger: the boundary is the
      policy's own, the event lies inside the window, the history is not evaluated
      later, nothing of the scope was recorded between the event and the head read,
      the counts agree and nothing recorded later lies inside the window, and a
      suspension was re-observed exactly if the history was suspended. */
  lemma SplitLearningExactly(earlier: Db, db: Db, bounded: Db, counted: Db, recalled: Db, headed: Db, later: Db,
                             e: Event, claim: Claim, attestation: Attestation, before: Snapshot,
                             beforeIdentity: Option<string>, p: AuthorityPolicy, now: real)
    requires LearningStep(db, e, claim, attestation, before, beforeIdentity, earlier)
    requires Follows(RecordEvent(db, e), headed) && Follows(headed, later)
    ensures var after := SplitSnapshot(bounded, counted, recalled, headed, p, e.scope, now);
            LearningVerdictOf(claim, attestation, e, before, beforeIdentity, after, RowsOf(later.ledger, e.scope), p,
                              before.head)
              == LearningOk
            <==>
              && HistoryStart(bounded, p, e.scope, now) == now - p.Window()
              && now - p.Window() <= e.occurredAt <= now
              && before.evaluatedAt <= now
              && RowsOf(headed.ledger, e.scope) == RowsOf(RecordEvent(db, e).ledger, e.scope)
              && CountsAgree(counted, headed, e.scope, now - p.Window(), now)
              && !AnyAtOrBefore(LaterRows(headed, later, e.scope), now)
              && (Stuck(bounded, recalled, e.scope) <==> before.state == Suspended)
  {
    var after := SplitSnapshot(bounded, counted, recalled, headed, p, e.scope, now);
    VerdictSplits(claim, attestation, e, before, beforeIdentity, after, RowsOf(later.ledger, e.scope), p);
    LearningPlacement(earlier, db, headed, later, e, before, after);
    if after.historyStart == now - p.Window() && !AnyAtOrBefore(LaterRows(headed, later, e.scope), now) {
      WholeLedgerRecount(headed, later, e.scope, now - p.Window(), now);
      LearnedExact(bounded, counted, recalled, headed, p, e.scope, now, before.state, RowsOf(later.ledger, e.scope));
    }
  }

  lemma LearningConditionsMeet(u: Db, later: Db, e: Event, before: Snapshot, p: AuthorityPolicy, now: real,
                               accepted: bool)
    requires Follows(u, later)
    requires accepted <==>
               && HistoryStart(u, p, e.scope, now) == now - p.Window()
               && now - p.Window() <= e.occurredAt <= now
               && before.evaluatedAt <= now
               && CountsAgree(u, u, e.scope, now - p.Window(), now)
               && !AnyAtOrBefore(LaterRows(u, later, e.scope), now)
               && (Stuck(u, u, e.scope) <==> before.state == Suspended)
    ensures accepted <==>
              && HistoryStart(u, p, e.scope, now) == now - p.Window()
              && now - p.Window() <= e.occurredAt <= now
              && before.evaluatedAt <= now
              && NonePostdated(EventsOf(u.events, e.scope), now - p.Window(), now)
              && !AnyAtOrBefore(LaterRows(u, later, e.scope), now)
              && (Sticky(u, e.scope) <==> before.state == Suspended)
  {
    UninterruptedCountsAgree(u, e.scope, now - p.Window(), now);
  }

  /** Exactly when the learning validator accepts the step with nothing between: the
      boundary is the policy's own, the event lies inside the window, the history is
      not evaluated later, the times are consistent, and the service still stood on
      a suspension exactly if the history did. */
  lemma LearningAcceptsExactly(earlier: Db, db: Db, later: Db, e: Event, claim: Claim, attestation: Attestation,
                               before: Snapshot, beforeIdentity: Option<string>, p: AuthorityPolicy, now: real)
    requires LearningStep(db, e, claim, attestation, before, beforeIdentity, earlier)
    requires Follows(RecordEvent(db, e), later)
    ensures var u := RecordEvent(db, e);
            var after := SnapshotOf(u, p, e.scope, now);
            LearningVerdictOf(claim, attestation, e, before, beforeIdentity, after, RowsOf(later.ledger, e.scope), p,
                              before.head)
              == LearningOk
            <==>
              && HistoryStart(u, p, e.scope, now) == now - p.Window()
              && now - p.Window() <= e.occurredAt <= now
              && before.evaluatedAt <= now
              && NonePostdated(EventsOf(u.events, e.scope), now - p.Window(), now)
              && !AnyAtOrBefore(LaterRows(u, later, e.scope), now)
              && (Sticky(u, e.scope) <==> before.state == Suspended)
  {
    var u := RecordEvent(db, e);
    var after := SplitSnapshot(u, u, u, u, p, e.scope, now);
    var accepted := LearningVerdictOf(claim, attestation, e, before, beforeIdentity, after,
                                      RowsOf(later.ledger, e.scope), p, before.head) == LearningOk;
    SplitLearningExactly(earlier, db, u, u, u, u, later, e, claim, attestation, before, beforeIdentity, p, now);
    LearningConditionsMeet(u, later, e, before, p, now, accepted);
  }

  lemma VerdictSplits(claim: Claim, attestation: Attestation, e: Event, before: Snapshot,
                      beforeIdentity: Option<string>,
                      after: Snapshot, rows: seq<LedgerRow>, p: AuthorityPolicy)
    requires FollowsEvidence(claim, attestation, e, before, beforeIdentity)
    requires e.scope == after.scope && after.policy == p
    ensures LearningVerdictOf(claim, attestation, e, before, beforeIdentity, after, rows, p, before.head)
              == LearningOk <==>
              && after.historyStart == after.evaluatedAt - p.Window()
              && PlacementVerdict(e, before, after, rows, before.head) == None
              && LearnedVerdict(p, before.state, after, rows) == LearningOk
  {
  }

  /** The heads before and after, and the rows the history committed to. */
  lemma HeadsInPlace(earlier: Db, db: Db, e: Event, later: Db)
    requires Coupled(db) && Recordable(e) && !EventKnown(db.events, EventId(e))
    requires Follows(RecordEvent(db, e), later) && Follows(earlier, db)
    ensures var s, rows := e.scope, RowsOf(later.ledger, e.scope);
            var before, n := RowsOf(earlier.ledger, s), |RowsOf(db.ledger, s)|;
            && SoundRows(rows, s) && before <= rows && |before| <= n < |rows| && rows[n].event == e
            && Matching(rows, EventId(e)) == [rows[n]]
            && HeadOf(RowsOf(RecordEvent(db, e).ledger, s)) == EventHash(e)
            && LaterRows(RecordEvent(db, e), later, s) == rows[n + 1..]
  {
    RecordedEventPlace(db, e, later);
    ScopeRowsSound(later, e.scope);
    RowsPrefix(earlier.ledger, db.ledger, e.scope);
  }

  /** The head read after the event is the event's exactly while nothing of its scope
      was recorded after it. */
  lemma HeadStaysExactly(db: Db, e: Event, headed: Db)
    requires Coupled(db) && Recordable(e) && !EventKnown(db.events, EventId(e)) && Follows(RecordEvent(db, e), headed)
    ensures HeadOf(RowsOf(headed.ledger, e.scope)) == EventHash(e) <==>
              RowsOf(headed.ledger, e.scope) == RowsOf(RecordEvent(db, e).ledger, e.scope)
  {
    var s, n := e.scope, |RowsOf(db.ledger, e.scope)|;
    var mine, rows := RowsOf(RecordEvent(db, e).ledger, s), RowsOf(headed.ledger, s);
    RecordedEventPlace(db, e, headed);
    ScopeRowsSound(headed, s);
    RowsPrefix(RecordEvent(db, e).ledger, headed.ledger, s);
    if HeadOf(rows) == EventHash(e) {
      assert Last(rows) in rows && rows[n] in rows;
      assert OfScope(s, Last(rows)) && OfScope(s, rows[n]);
      assert |rows| == n + 1 && rows == mine;
    }
  }

  lemma LearningPlacement(earlier: Db, db: Db, headed: Db, later: Db, e: Event, before: Snapshot, after: Snapshot)
    requires Coupled(db) && Recordable(e) && !EventKnown(db.events, EventId(e))
    requires Follows(RecordEvent(db, e), headed) && Follows(headed, later)
    requires Follows(earlier, db) && before.head == HeadOf(RowsOf(earlier.ledger, e.scope))
    requires after.head == HeadOf(RowsOf(headed.ledger, e.scope))
    ensures PlacementVerdict(e, before, after, RowsOf(later.ledger, e.scope), before.head) == None <==>
              && RowsOf(headed.ledger, e.scope) == RowsOf(RecordEvent(db, e).ledger, e.scope)
              && after.historyStart <= e.occurredAt <= after.evaluatedAt
              && before.evaluatedAt <= after.evaluatedAt
              && !AnyAtOrBefore(LaterRows(headed, later, e.scope), after.evaluatedAt)
  {
    var n, rows := |RowsOf(db.ledger, e.scope)|, RowsOf(later.ledger, e.scope);
    HeadsInPlace(earlier, db, e, later);
    HeadStaysExactly(db, e, headed);
    if after.head == EventHash(e) {
      PlacementExact(e, before, after, rows, n, RowsOf(earlier.ledger, e.scope));
    }
  }

  /** Once nothing recorded later falls up to the evaluation, the whole ledger
      recounts to what its committed part does. */
  lemma WholeLedgerRecount(headed: Db, later: Db, s: Scope, from: real, now: real)
    requires Follows(headed, later) && !AnyAtOrBefore(LaterRows(headed, later, s), now)
    ensures CountFrom(EventsIn(RowsOf(later.ledger, s)), from, Some(now))
              == CountFrom(EventsOf(headed.events, s), from, Some(now))
  {
    LedgerRecount(headed, later, s);
    FutureRowsIgnored(RowsOf(later.ledger, s), |RowsOf(headed.ledger, s)|, from, now);
  }

  /** The placement checks for the only matching row, once the history's head is
      known to lie before it. */
  lemma PlacementOfRow(e: Event, before: Snapshot, after: Snapshot, rows: seq<LedgerRow>, row: LedgerRow, prior: nat)
    requires Matching(rows, EventId(e)) == [row] && row.event == e && row.hash == EventHash(e)
    requires after.head == EventHash(e) && PriorSequence(rows, before.head) == prior < row.sequence
    requires prior == 0 ==> before.head == Genesis
    ensures PlacementVerdict(e, before, after, rows, before.head) == None <==>
              && after.historyStart <= e.occurredAt <= after.evaluatedAt
              && before.evaluatedAt <= after.evaluatedAt
              && !AnyFutureAtOrBefore(rows, row.sequence, after.evaluatedAt)
  {
  }

  /** The placement checks, for an event that stands at position `n`. */
  lemma PlacementExact(e: Event, before: Snapshot, after: Snapshot, rows: seq<LedgerRow>, n: nat,
                       earlier: seq<LedgerRow>)
    requires SoundRows(rows, e.scope) && n < |rows| && rows[n].event == e
    requires Matching(rows, EventId(e)) == [rows[n]] && after.head == EventHash(e)
    requires earlier <= rows && |earlier| <= n && before.head == HeadOf(earlier)
    ensures PlacementVerdict(e, before, after, rows, before.head) == None <==>
              && after.historyStart <= e.occurredAt <= after.evaluatedAt
              && before.evaluatedAt <= after.evaluatedAt
              && !AnyAtOrBefore(rows[n + 1..], after.evaluatedAt)
  {
    EarlierHeadPrecedes(earlier, rows, e.scope);
    FutureMeansLater(rows, n, after.evaluatedAt);
    assert RowChained(rows, n);
    PlacementOfRow(e, before, after, rows, rows[n], |earlier|);
  }

  /** The recomputed state, when the ledger window recounts to the live counters
      or not. */
  lemma LearnedExact(bounded: Db, counted: Db, recalled: Db, headed: Db, p: AuthorityPolicy, s: Scope, now: real,
                     previous: AuthorityState, rows: seq<LedgerRow>)
    requires HistoryStart(bounded, p, s, now) == now - p.Window()
    ensures LearnedVerdict(p, previous, SplitSnapshot(bounded, counted, recalled, headed, p, s, now), rows)
              == LearningOk <==>
              && CountFrom(EventsIn(rows), now - p.Window(), Some(now))
                 == CountFrom(EventsOf(counted.events, s), now - p.Window(), None)
              && (Stuck(bounded, recalled, s) <==> previous == Suspended)
  {
  }

  /** Rows with a greater sequence are the rows recorded later. */
  lemma FutureMeansLater(rows: seq<LedgerRow>, n: nat, t: real)
    requires ChainValid(rows) && n < |rows|
    ensures AnyFutureAtOrBefore(rows, n + 1, t) <==> AnyAtOrBefore(rows[n + 1..], t)
  {
    var tail := rows[n + 1..];
    assert forall i :: 0 <= i < |tail| ==> tail[i] == rows[n + 1 + i];
    forall i | 0 <= i < |rows| ensures rows[i].sequence == i + 1 {
      assert RowChained(rows, i);
    }
    if AnyFutureAtOrBefore(rows, n + 1, t) {
      var i :| 0 <= i < |rows| && rows[i].sequence > n + 1 && rows[i].event.occurredAt <= t;
      assert tail[i - n - 1] == rows[i];
    }
  }

  /** Two "after" snapshots accepted for the same evidence at the same evaluation
      time agree. */
  lemma LearningIsDeterministic(claim: Claim, attestation: Attestation, e: Event, before: Snapshot,
                                beforeIdentity: Option<string>, a: Snapshot, b: Snapshot, rows: seq<LedgerRow>,
                                p: AuthorityPolicy, head: Head)
    requires LearningVerdictOf(claim, attestation, e, before, beforeIdentity, a, rows, p, head) == LearningOk
    requires LearningVerdictOf(claim, attestation, e, before, beforeIdentity, b, rows, p, head) == LearningOk
    requires a.evaluatedAt == b.evaluatedAt
    ensures a.counters == b.counters && a.state == b.state && a.multiplier == b.multiplier && a.reason == b.reason
  {
  }
}
