/** Dynamic authority derived from recorded outcomes (core/authority_state.py) over
    the event, ledger, state and reset tables of core/storage.py. */
module DynamicAuthority {
  import opened Common
  import opened Models
  import opened Governance

  datatype EventType =
    | ExecutionConfirmed | ExecutionFailed | AuthorizationRejected | PolicyViolation | TamperDetected
    | OtherEvent(name: string)

  function TypeName(t: EventType): string {
    match t
    case ExecutionConfirmed => "EXECUTION_CONFIRMED"
    case ExecutionFailed => "EXECUTION_FAILED"
    case AuthorizationRejected => "AUTHORIZATION_REJECTED"
    case PolicyViolation => "POLICY_VIOLATION"
    case TamperDetected => "TAMPER_DETECTED"
    case OtherEvent(name) => name
  }

  predicate IsSuccess(t: EventType) {
    t == ExecutionConfirmed
  }

  predicate IsAdverse(t: EventType) {
    t == ExecutionFailed || t == AuthorizationRejected || t == PolicyViolation || t == TamperDetected
  }

  predicate IsCritical(t: EventType) {
    t == TamperDetected || t == PolicyViolation
  }

  datatype Event = Event(
    scope: Scope,
    identityId: Option<string>,
    eventType: EventType,
    actionType: Option<string>,
    evidenceRef: string,
    metadata: map<string, string>,
    occurredAt: real)

  /** The digested string; the separators make it ambiguous across scopes, as in
      the code. */
  function EventId(e: Event): string {
    e.scope.agentId + ":" + e.scope.capabilityId + ":" + TypeName(e.eventType) + ":" + e.evidenceRef
  }

  /** An event hash is the hashed event; the chain starts at sixty-four zeros. */
  datatype Head = Genesis | EventHash(event: Event)

  datatype LedgerRow = LedgerRow(scope: Scope, sequence: int, eventId: string, prev: Head, hash: Head, event: Event)

  datatype AuthorityPolicy = AuthorityPolicy(
    windowSeconds: int,
    probationSuccesses: int,
    standardSuccesses: int,
    limitedAdverse: int,
    suspensionCritical: int,
    probationMultiplier: real,
    limitedMultiplier: real,
    standardMultiplier: real,
    elevatedMultiplier: real,
    elevatedOnly: seq<string>)
  {
    function Multiplier(s: AuthorityState): real {
      match s
      case Probation => probationMultiplier
      case Limited => limitedMultiplier
      case Standard => standardMultiplier
      case Elevated => elevatedMultiplier
      case Suspended => 0.0
    }

    function Window(): real {
      windowSeconds as real
    }
  }

  const DEFAULT_POLICY := AuthorityPolicy(2592000, 5, 20, 2, 1, 0.10, 0.25, 0.50, 1.00, ["irreversible_operation"])

  datatype Reason = SuspendedUntilReset | CriticalObserved | AdverseThreshold | SuccessThreshold
                  | ProbationThreshold | InsufficientHistory

  /** The policy digest bound into a snapshot is the policy. */
  datatype Snapshot = Snapshot(
    scope: Scope,
    state: AuthorityState,
    counters: Counters,
    multiplier: real,
    evaluatedAt: real,
    reason: Reason,
    head: Head,
    policy: AuthorityPolicy,
    historyStart: real)

  datatype Counters = Counters(successes: nat, adverse: nat, critical: nat)

  datatype Reset = Reset(scope: Scope, resetId: string, governorId: string, epoch: int, reason: string,
                         issuedAt: real, nonce: string)

  datatype Db = Db(
    events: seq<Event>,
    ledger: seq<LedgerRow>,
    states: map<Scope, Snapshot>,
    resets: seq<Reset>,
    approvals: seq<ApprovalPayload>)

  const EMPTY_DB := Db([], [], map[], [], [])

  // -------------------------------------------------------------------- queries

  function EventsOf(events: seq<Event>, s: Scope): seq<Event> {
    if events == [] then []
    else EventsOf(events[..|events| - 1], s) + if Last(events).scope == s then [Last(events)] else []
  }

  function RowsOf(ledger: seq<LedgerRow>, s: Scope): seq<LedgerRow> {
    if ledger == [] then []
    else RowsOf(ledger[..|ledger| - 1], s) + if Last(ledger).scope == s then [Last(ledger)] else []
  }

  function ResetsOf(resets: seq<Reset>, s: Scope): seq<Reset> {
    if resets == [] then []
    else ResetsOf(resets[..|resets| - 1], s) + if Last(resets).scope == s then [Last(resets)] else []
  }

  function HeadOf(rows: seq<LedgerRow>): Head {
    if rows == [] then Genesis else Last(rows).hash
  }

  predicate EventKnown(events: seq<Event>, id: string) {
    exists i :: 0 <= i < |events| && EventId(events[i]) == id
  }

  /** The greatest epoch of the scope; epochs grow with the table. */
  function LatestReset(resets: seq<Reset>, s: Scope): Option<Reset> {
    LastReset(ResetsOf(resets, s))
  }

  function LastReset(rs: seq<Reset>): Option<Reset> {
    if rs == [] then None else Some(Last(rs))
  }

  function One(b: bool): nat {
    if b then 1 else 0
  }

  function Count(c: Counters, e: Event): Counters {
    Counters(c.successes + One(IsSuccess(e.eventType)),
             c.adverse + One(IsAdverse(e.eventType)),
             c.critical + One(IsCritical(e.eventType)))
  }

  /** Outcomes at or after `from`, and, when a bound is given, not after it. */
  function CountFrom(events: seq<Event>, from: real, upTo: Option<real>): Counters {
    if events == [] then Counters(0, 0, 0)
    else
      var c := CountFrom(events[..|events| - 1], from, upTo);
      var e := Last(events);
      if from <= e.occurredAt && (upTo.None? || e.occurredAt <= upTo.value) then Count(c, e) else c
  }

  /** Where a table of events holds a scope's outcomes of these types at or after
      `from`. */
  ghost function Outcomes(events: seq<Event>, s: Scope, types: set<EventType>, from: real): set<int> {
    set i | 0 <= i < |events| && events[i].scope == s && events[i].eventType in types && from <= events[i].occurredAt
  }

  lemma OutcomesSnoc(events: seq<Event>, s: Scope, types: set<EventType>, from: real)
    requires events != []
    ensures var front, e := events[..|events| - 1], Last(events);
            |Outcomes(events, s, types, from)| == |Outcomes(front, s, types, from)|
                                                  + One(e.scope == s && e.eventType in types && from <= e.occurredAt)
  {
    var n, e := |events| - 1, Last(events);
    OnePlaceMore(Outcomes(events[..n], s, types, from), Outcomes(events, s, types, from), n,
                 e.scope == s && e.eventType in types && from <= e.occurredAt);
  }

  /** What the live counters count, straight from the event table. */
  lemma {:induction false} LiveCounters(events: seq<Event>, s: Scope, from: real)
    ensures var c := CountFrom(EventsOf(events, s), from, None);
            && c.successes == |Outcomes(events, s, {ExecutionConfirmed}, from)|
            && c.adverse == |Outcomes(events, s, {ExecutionFailed, AuthorizationRejected, PolicyViolation,
                                                  TamperDetected}, from)|
            && c.critical == |Outcomes(events, s, {TamperDetected, PolicyViolation}, from)|
  {
    if events != [] {
      var front, e := events[..|events| - 1], Last(events);
      LiveCounters(front, s, from);
      OutcomesSnoc(events, s, {ExecutionConfirmed}, from);
      OutcomesSnoc(events, s, {ExecutionFailed, AuthorizationRejected, PolicyViolation, TamperDetected}, from);
      OutcomesSnoc(events, s, {TamperDetected, PolicyViolation}, from);
      var mine := EventsOf(front, s);
      assert (mine + [e])[..|mine|] == mine && mine + [] == mine;
    }
  }

  // -------------------------------------------------------------- the derivation

  /** Thresholds alone, in the order of the code. */
  function Derive(p: AuthorityPolicy, c: Counters): (AuthorityState, Reason) {
    if c.critical >= p.suspensionCritical then (Suspended, CriticalObserved)
    else if c.adverse >= p.limitedAdverse then (Limited, AdverseThreshold)
    else if c.successes >= p.standardSuccesses && c.adverse <= 1 then (Elevated, SuccessThreshold)
    else if c.successes >= p.probationSuccesses && c.adverse <= 1 then (Standard, ProbationThreshold)
    else (Probation, InsufficientHistory)
  }

  /** The threshold table: which state, multiplier and reason the counters warrant. */
  ghost predicate Warranted(p: AuthorityPolicy, c: Counters, state: AuthorityState, multiplier: real, reason: Reason) {
    var uncritical := c.critical < p.suspensionCritical;
    var unrestricted := uncritical && c.adverse < p.limitedAdverse;
    var trusted := unrestricted && c.adverse <= 1;
    match state
    case Suspended => !uncritical && multiplier == 0.0 && reason == CriticalObserved
    case Limited => uncritical && !unrestricted && multiplier == p.limitedMultiplier && reason == AdverseThreshold
    case Elevated =>
      trusted && c.successes >= p.standardSuccesses
      && multiplier == p.elevatedMultiplier && reason == SuccessThreshold
    case Standard =>
      trusted && p.probationSuccesses <= c.successes < p.standardSuccesses
      && multiplier == p.standardMultiplier && reason == ProbationThreshold
    case Probation =>
      unrestricted && (c.adverse > 1 || (c.successes < p.probationSuccesses && c.successes < p.standardSuccesses))
      && multiplier == p.probationMultiplier && reason == InsufficientHistory
  }

  /** The derivation gives what the table warrants, and nothing else. */
  lemma DerivesExactly(p: AuthorityPolicy, c: Counters, state: AuthorityState, multiplier: real, reason: Reason)
    ensures Warranted(p, c, state, multiplier, reason) <==>
              (state, reason) == Derive(p, c) && multiplier == p.Multiplier(state)
  {
  }

  /** Under the default thresholds LIMITED stands above PROBATION, so one more
      adverse outcome that is not critical can raise the multiplier: exactly when
      it is the second one and there are fewer than five successes. */
  lemma AdverseRaisesExactly(c: Counters)
    requires c.critical == 0
    ensures var p := DEFAULT_POLICY;
            p.Multiplier(Derive(p, Counters(c.successes, c.adverse + 1, 0)).0) > p.Multiplier(Derive(p, c).0)
            <==> c.adverse == 1 && c.successes < 5
  {
  }

  ghost predicate OrderedThresholds(p: AuthorityPolicy) {
    && p.probationSuccesses <= p.standardSuccesses
    && 0.0 <= p.probationMultiplier <= p.standardMultiplier <= p.elevatedMultiplier
    && 0.0 <= p.limitedMultiplier
  }

  /** Under any policy with ordered thresholds, further successes never lower the
      multiplier and further critical outcomes that suspend never raise it. */
  lemma OutcomesMoveMultiplier(p: AuthorityPolicy, c: Counters, successes: nat, critical: nat)
    requires OrderedThresholds(p)
    ensures p.Multiplier(Derive(p, Counters(c.successes + successes, c.adverse, c.critical)).0)
              >= p.Multiplier(Derive(p, c).0)
    ensures c.critical + critical >= p.suspensionCritical ==>
              p.Multiplier(Derive(p, Counters(c.successes, c.adverse + critical, c.critical + critical)).0) == 0.0
              <= p.Multiplier(Derive(p, c).0)
  {
  }

  // What a snapshot makes of its four reads: the latest reset, the events, the
  // stored state, the ledger head.

  function StartFrom(p: AuthorityPolicy, now: real, latest: Option<Reset>): real {
    if latest.None? then now - p.Window() else MaxReal(now - p.Window(), latest.value.issuedAt)
  }

  /** A suspension that was observed sticks while the scope has no reset. */
  function StateFrom(p: AuthorityPolicy, latest: Option<Reset>, c: Counters, suspended: bool)
    : (AuthorityState, Reason)
  {
    if suspended && latest.None? then (Suspended, SuspendedUntilReset) else Derive(p, c)
  }

  function SnapshotFrom(p: AuthorityPolicy, s: Scope, now: real, latest: Option<Reset>, c: Counters, suspended: bool,
                        head: Head): Snapshot
  {
    var (state, reason) := StateFrom(p, latest, c, suspended);
    Snapshot(s, state, c, p.Multiplier(state), now, reason, head, p, StartFrom(p, now, latest))
  }

  function HistoryStart(db: Db, p: AuthorityPolicy, s: Scope, now: real): real {
    StartFrom(p, now, LatestReset(db.resets, s))
  }

  predicate StandsSuspended(db: Db, s: Scope) {
    s in db.states && db.states[s].state == Suspended
  }

  /** A snapshot that reads the resets in one store and the state in another
      re-observes a suspension. */
  predicate Stuck(bounded: Db, recalled: Db, s: Scope) {
    StandsSuspended(recalled, s) && LatestReset(bounded.resets, s).None?
  }

  predicate Sticky(db: Db, s: Scope) {
    Stuck(db, db, s)
  }

  /** The snapshot whose four reads saw these stores. */
  function SplitSnapshot(bounded: Db, counted: Db, recalled: Db, headed: Db, p: AuthorityPolicy, s: Scope, now: real)
    : Snapshot
  {
    var start := HistoryStart(bounded, p, s, now);
    SnapshotFrom(p, s, now, LatestReset(bounded.resets, s), CountFrom(EventsOf(counted.events, s), start, None),
                 StandsSuspended(recalled, s), HeadOf(RowsOf(headed.ledger, s)))
  }

  /** A snapshot with nothing between its reads. */
  function SnapshotOf(db: Db, p: AuthorityPolicy, s: Scope, now: real): Snapshot {
    SplitSnapshot(db, db, db, db, p, s, now)
  }

  ghost predicate LastResetAt(resets: seq<Reset>, s: Scope, i: int) {
    0 <= i < |resets| && resets[i].scope == s && forall j :: i < j < |resets| ==> resets[j].scope != s
  }

  ghost predicate LastRowAt(ledger: seq<LedgerRow>, s: Scope, i: int) {
    0 <= i < |ledger| && ledger[i].scope == s && forall j :: i < j < |ledger| ==> ledger[j].scope != s
  }

  lemma {:induction false} LastResetOfScope(resets: seq<Reset>, s: Scope) returns (i: int)
    ensures LatestReset(resets, s).None? <==> forall j :: 0 <= j < |resets| ==> resets[j].scope != s
    ensures LatestReset(resets, s).Some? ==> LastResetAt(resets, s, i) && LatestReset(resets, s).value == resets[i]
  {
    i := -1;
    if resets != [] {
      if Last(resets).scope == s {
        i := |resets| - 1;
      } else {
        i := LastResetOfScope(resets[..|resets| - 1], s);
      }
    }
  }

  lemma {:induction false} LastRowOfScope(ledger: seq<LedgerRow>, s: Scope) returns (i: int)
    ensures RowsOf(ledger, s) == [] <==> forall j :: 0 <= j < |ledger| ==> ledger[j].scope != s
    ensures RowsOf(ledger, s) != [] ==> LastRowAt(ledger, s, i) && Last(RowsOf(ledger, s)) == ledger[i]
  {
    i := -1;
    if ledger != [] {
      if Last(ledger).scope == s {
        i := |ledger| - 1;
      } else {
        i := LastRowOfScope(ledger[..|ledger| - 1], s);
      }
    }
  }

  /** Everything a snapshot says, straight from the tables. It starts at the window or
      at the scope's last reset, whichever is later; it counts the scope's recorded
      outcomes from there on, also those after `now`; the threshold table decides, unless
      the scope was stored as suspended and was never reset; the head is the hash of the
      scope's last ledger row. */
  ghost predicate Reports(db: Db, p: AuthorityPolicy, s: Scope, now: real, snapshot: Snapshot) {
    var c, start, window := snapshot.counters, snapshot.historyStart, now - p.windowSeconds as real;
    var neverReset := forall i :: 0 <= i < |db.resets| ==> db.resets[i].scope != s;
    && snapshot.scope == s && snapshot.evaluatedAt == now && snapshot.policy == p
    && (neverReset ==> start == window)
    && (forall i :: LastResetAt(db.resets, s, i) ==>
          start == if db.resets[i].issuedAt > window then db.resets[i].issuedAt else window)
    && c.successes == |Outcomes(db.events, s, {ExecutionConfirmed}, start)|
    && c.adverse == |Outcomes(db.events, s, {ExecutionFailed, AuthorizationRejected, PolicyViolation, TamperDetected},
                              start)|
    && c.critical == |Outcomes(db.events, s, {TamperDetected, PolicyViolation}, start)|
    && (if neverReset && s in db.states && db.states[s].state == Suspended
        then snapshot.state == Suspended && snapshot.multiplier == 0.0 && snapshot.reason == SuspendedUntilReset
        else Warranted(p, c, snapshot.state, snapshot.multiplier, snapshot.reason))
    && ((forall i :: 0 <= i < |db.ledger| ==> db.ledger[i].scope != s) ==> snapshot.head == Genesis)
    && (forall i :: LastRowAt(db.ledger, s, i) ==> snapshot.head == db.ledger[i].hash)
  }

  lemma SnapshotMeans(db: Db, p: AuthorityPolicy, s: Scope, now: real)
    ensures Reports(db, p, s, now, SnapshotOf(db, p, s, now))
  {
    var snapshot := SnapshotOf(db, p, s, now);
    var reset := LastResetOfScope(db.resets, s);
    var row := LastRowOfScope(db.ledger, s);
    LiveCounters(db.events, s, snapshot.historyStart);
    DerivesExactly(p, snapshot.counters, snapshot.state, snapshot.multiplier, snapshot.reason);
  }

  /** Under the default policy, a window of thirty days, any recorded POLICY_VIOLATION or
      TAMPER_DETECTED at or after the start leaves nothing; without one, and without a
      standing suspension, two adverse outcomes leave a quarter, and fewer leave all from
      twenty successes on, half from five on and a tenth below. */
  lemma DefaultSnapshot(db: Db, s: Scope, now: real)
    ensures var snapshot := SnapshotOf(db, DEFAULT_POLICY, s, now);
            var c, start := snapshot.counters, snapshot.historyStart;
            && start >= now - 2592000.0
            && (forall e :: e in db.events && e.scope == s && start <= e.occurredAt ==>
                  e.eventType == PolicyViolation || e.eventType == TamperDetected ==>
                    snapshot.state == Suspended && snapshot.multiplier == 0.0)
            && (c.critical == 0 && !Sticky(db, s) ==>
                  && (c.adverse >= 2 ==> snapshot.state == Limited && snapshot.multiplier == 0.25)
                  && (c.adverse < 2 && c.successes >= 20 ==> snapshot.state == Elevated && snapshot.multiplier == 1.0)
                  && (c.adverse < 2 && 5 <= c.successes < 20 ==>
                        snapshot.state == Standard && snapshot.multiplier == 0.5)
                  && (c.adverse < 2 && c.successes < 5 ==>
                        snapshot.state == Probation && snapshot.multiplier == 0.1))
  {
    var snapshot := SnapshotOf(db, DEFAULT_POLICY, s, now);
    SnapshotMeans(db, DEFAULT_POLICY, s, now);
    var critical := Outcomes(db.events, s, {TamperDetected, PolicyViolation}, snapshot.historyStart);
    forall e | e in db.events && e.scope == s && snapshot.historyStart <= e.occurredAt
               && (e.eventType == PolicyViolation || e.eventType == TamperDetected)
      ensures critical != {}
    {
      var i :| 0 <= i < |db.events| && db.events[i] == e;
      assert i in critical;
    }
  }

  function Observe(db: Db, p: AuthorityPolicy, s: Scope, now: real): Db {
    db.(states := db.states[s := SnapshotOf(db, p, s, now)])
  }

  /** `record_event` accepts known types with evidence only. */
  predicate Recordable(e: Event) {
    TypeName(e.eventType) != "" && e.evidenceRef != "" && (IsSuccess(e.eventType) || IsAdverse(e.eventType))
  }

  /** What is recorded: the five known outcomes, each with evidence, whose ids no stored
      event and no ledger row has; the row continues its own scope's chain. */
  lemma RecordMeans(db: Db, e: Event)
    ensures Recordable(e) <==>
              e.evidenceRef != "" && e.eventType in {ExecutionConfirmed, ExecutionFailed, AuthorizationRejected,
                                                     PolicyViolation, TamperDetected}
    ensures var u := RecordEvent(db, e);
            && u.states == db.states && u.resets == db.resets && u.approvals == db.approvals
            && (!Recordable(e) ==> u == db)
            && (Recordable(e) ==>
                  && u.events == (if exists i :: 0 <= i < |db.events| && EventId(db.events[i]) == EventId(e)
                                  then db.events else db.events + [e])
                  && (if exists i :: 0 <= i < |db.ledger| && db.ledger[i].eventId == EventId(e)
                      then u.ledger == db.ledger
                      else |u.ledger| == |db.ledger| + 1 && u.ledger == db.ledger + [Last(u.ledger)]
                           && Continues(db.ledger, e, Last(u.ledger))))
  {
    var row := LastRowOfScope(db.ledger, e.scope);
  }

  /** The row numbers its scope's rows on from one and names the hash before it. */
  ghost predicate Continues(ledger: seq<LedgerRow>, e: Event, row: LedgerRow) {
    && row.scope == e.scope && row.eventId == EventId(e) && row.event == e && row.hash == EventHash(e)
    && if forall i :: 0 <= i < |ledger| ==> ledger[i].scope != e.scope
       then row.sequence == 1 && row.prev == Genesis
       else exists i :: LastRowAt(ledger, e.scope, i)
                        && row.sequence == ledger[i].sequence + 1 && row.prev == ledger[i].hash
  }

  lemma NamesApart(a: EventType, b: EventType)
    requires a != b && !a.OtherEvent? && !b.OtherEvent?
    ensures var x, y := TypeName(a), TypeName(b); |x| > 10 && |y| > 10 && (x[0] != y[0] || x[10] != y[10])
  {
  }

  /** Two outcomes of one scope have the same id exactly when type and evidence agree. */
  lemma SameIdExactly(a: Event, b: Event)
    requires Recordable(a) && Recordable(b) && a.scope == b.scope
    ensures EventId(a) == EventId(b) <==> a.eventType == b.eventType && a.evidenceRef == b.evidenceRef
  {
    var prefix := a.scope.agentId + ":" + a.scope.capabilityId + ":";
    var x, y := TypeName(a.eventType), TypeName(b.eventType);
    var ids := (EventId(a), EventId(b));
    var n, k := |prefix|, |prefix| + |x| + 1;
    assert ids.0 == prefix + x + ":" + a.evidenceRef && ids.1 == prefix + y + ":" + b.evidenceRef;
    if a.eventType != b.eventType {
      NamesApart(a.eventType, b.eventType);
      assert ids.0[n] == x[0] && ids.1[n] == y[0] && ids.0[n + 10] == x[10] && ids.1[n + 10] == y[10];
    } else {
      assert ids.0[k..] == a.evidenceRef && ids.1[k..] == b.evidenceRef;
    }
  }

  function InsertEvent(events: seq<Event>, e: Event): seq<Event> {
    if EventKnown(events, EventId(e)) then events else events + [e]
  }

  predicate LedgerKnown(ledger: seq<LedgerRow>, id: string) {
    exists i :: 0 <= i < |ledger| && ledger[i].eventId == id
  }

  function NextRow(ledger: seq<LedgerRow>, e: Event): LedgerRow {
    var rows := RowsOf(ledger, e.scope);
    LedgerRow(e.scope, if rows == [] then 1 else Last(rows).sequence + 1, EventId(e), HeadOf(rows), EventHash(e), e)
  }

  function AppendLedger(ledger: seq<LedgerRow>, e: Event): seq<LedgerRow> {
    if LedgerKnown(ledger, EventId(e)) then ledger else ledger + [NextRow(ledger, e)]
  }

  function RecordEvent(db: Db, e: Event): Db {
    if !Recordable(e) then db
    else db.(events := InsertEvent(db.events, e), ledger := AppendLedger(db.ledger, e))
  }

  // ---------------------------------------------------------------- the coupling

  /** Row `i` is the next row its predecessors allow, for the event stored at the
      same place in the event table. */
  ghost predicate RowCoupled(db: Db, i: nat)
    requires i < |db.ledger| && |db.events| == |db.ledger|
  {
    && db.ledger[i] == NextRow(db.ledger[..i], db.events[i])
    && !LedgerKnown(db.ledger[..i], db.ledger[i].eventId)
    && Recordable(db.events[i])
  }

  ghost predicate Coupled(db: Db) {
    && |db.events| == |db.ledger|
    && forall i {:trigger RowCoupled(db, i)} :: 0 <= i < |db.ledger| ==> RowCoupled(db, i)
  }

  lemma KnownTogether(db: Db, id: string)
    requires Coupled(db)
    ensures EventKnown(db.events, id) <==> LedgerKnown(db.ledger, id)
  {
    forall i | 0 <= i < |db.ledger| ensures db.ledger[i].eventId == EventId(db.events[i]) {
      assert RowCoupled(db, i);
    }
  }

  /** Events and ledger are appended together or not at all. */
  lemma RecordKeepsCoupled(db: Db, e: Event)
    requires Coupled(db)
    ensures Coupled(RecordEvent(db, e))
    ensures var u := RecordEvent(db, e);
            u == db || (u.events == db.events + [e] && u.ledger == db.ledger + [NextRow(db.ledger, e)])
  {
    KnownTogether(db, EventId(e));
    var u := RecordEvent(db, e);
    forall i | 0 <= i < |u.ledger| ensures RowCoupled(u, i) {
      if i < |db.ledger| {
        assert RowCoupled(db, i);
        assert u.ledger[..i] == db.ledger[..i];
      } else {
        assert u.ledger[..i] == db.ledger;
      }
    }
  }

  lemma CoupledFrame(db: Db, u: Db)
    requires Coupled(db) && u.events == db.events && u.ledger == db.ledger
    ensures Coupled(u)
  {
    forall i | 0 <= i < |u.ledger| ensures RowCoupled(u, i) {
      assert RowCoupled(db, i);
    }
  }

  function EventsIn(rows: seq<LedgerRow>): (r: seq<Event>)
    ensures |r| == |rows|
  {
    seq(|rows|, i requires 0 <= i < |rows| => rows[i].event)
  }

  /** What the service counts is what the scope's ledger holds, in order. */
  lemma {:induction false} ScopeEventsAreLedgered(db: Db, s: Scope, n: nat)
    requires Coupled(db) && n <= |db.ledger|
    ensures EventsOf(db.events[..n], s) == EventsIn(RowsOf(db.ledger[..n], s))
  {
    if n > 0 {
      ScopeEventsAreLedgered(db, s, n - 1);
      assert RowCoupled(db, n - 1);
      assert db.events[..n][..n - 1] == db.events[..n - 1];
      assert db.ledger[..n][..n - 1] == db.ledger[..n - 1];
    }
  }

  // --------------------------------------------------------------- the chain check

  ghost predicate RowChained(rows: seq<LedgerRow>, i: nat)
    requires i < |rows|
  {
    rows[i].sequence == i + 1 && rows[i].prev == HeadOf(rows[..i]) && rows[i].hash == EventHash(rows[i].event)
  }

  ghost predicate ChainValid(rows: seq<LedgerRow>) {
    forall i {:trigger RowChained(rows, i)} :: 0 <= i < |rows| ==> RowChained(rows, i)
  }

  /** `verify_authority_ledger`. */
  method VerifyLedger(rows: seq<LedgerRow>) returns (valid: bool)
    ensures valid <==> ChainValid(rows)
  {
    var previous := Genesis;
    for k := 0 to |rows|
      invariant previous == HeadOf(rows[..k])
      invariant forall i {:trigger RowChained(rows, i)} :: 0 <= i < k ==> RowChained(rows, i)
    {
      assert RowChained(rows, k) <==>
               rows[k].sequence == k + 1 && rows[k].prev == previous && rows[k].hash == EventHash(rows[k].event);
      if rows[k].sequence != k + 1 || rows[k].prev != previous {
        return false;
      }
      var actual := EventHash(rows[k].event);
      if actual != rows[k].hash {
        return false;
      }
      previous := actual;
    }
    return true;
  }

  ghost predicate OfScope(s: Scope, r: LedgerRow) {
    r.eventId == EventId(r.event) && r.hash == EventHash(r.event) && r.event.scope == s && Recordable(r.event)
  }

  ghost predicate DistinctIds(rows: seq<LedgerRow>) {
    forall i, j :: 0 <= i < j < |rows| ==> rows[i].eventId != rows[j].eventId
  }

  ghost predicate KnownRows(rows: seq<LedgerRow>, ledger: seq<LedgerRow>, s: Scope) {
    forall r :: r in rows ==> LedgerKnown(ledger, r.eventId) && OfScope(s, r)
  }

  lemma RowsSnoc(ledger: seq<LedgerRow>, row: LedgerRow, s: Scope)
    ensures RowsOf(ledger + [row], s) == RowsOf(ledger, s) + if row.scope == s then [row] else []
  {
    assert (ledger + [row])[..|ledger|] == ledger;
  }

  lemma StillKnown(ledger: seq<LedgerRow>, row: LedgerRow)
    ensures LedgerKnown(ledger + [row], row.eventId)
    ensures forall id :: LedgerKnown(ledger, id) ==> LedgerKnown(ledger + [row], id)
  {
    var longer := ledger + [row];
    assert longer[|ledger|] == row;
    forall id | LedgerKnown(ledger, id) ensures LedgerKnown(longer, id) {
      var i :| 0 <= i < |ledger| && ledger[i].eventId == id;
      assert longer[i].eventId == id;
    }
  }

  lemma KnownSnoc(rows: seq<LedgerRow>, ledger: seq<LedgerRow>, row: LedgerRow, s: Scope)
    requires KnownRows(rows, ledger, s)
    ensures KnownRows(rows, ledger + [row], s)
    ensures OfScope(s, row) ==> KnownRows(rows + [row], ledger + [row], s)
  {
    StillKnown(ledger, row);
  }

  lemma DistinctSnoc(rows: seq<LedgerRow>, ledger: seq<LedgerRow>, row: LedgerRow, s: Scope)
    requires DistinctIds(rows) && !LedgerKnown(ledger, row.eventId) && KnownRows(rows, ledger, s)
    ensures DistinctIds(rows + [row])
  {
    forall i | 0 <= i < |rows| ensures rows[i].eventId != row.eventId {
      assert rows[i] in rows;
    }
  }

  /** A scope's part of a ledger: a valid chain of rows of the scope with distinct
      ids. */
  ghost predicate SoundPart(rows: seq<LedgerRow>, ledger: seq<LedgerRow>, s: Scope) {
    ChainValid(rows) && DistinctIds(rows) && KnownRows(rows, ledger, s)
  }

  lemma SoundSnoc(ledger: seq<LedgerRow>, e: Event, s: Scope)
    requires SoundPart(RowsOf(ledger, s), ledger, s) && Recordable(e) && !LedgerKnown(ledger, EventId(e))
    ensures SoundPart(RowsOf(ledger + [NextRow(ledger, e)], s), ledger + [NextRow(ledger, e)], s)
  {
    var rows, row := RowsOf(ledger, s), NextRow(ledger, e);
    RowsSnoc(ledger, row, s);
    KnownSnoc(rows, ledger, row, s);
    if e.scope == s {
      ChainAppend(rows, row);
      DistinctSnoc(rows, ledger, row, s);
    } else {
      assert rows + [] == rows;
    }
  }

  lemma {:induction false} ScopePartSound(db: Db, s: Scope, n: nat)
    requires Coupled(db) && n <= |db.ledger|
    ensures SoundPart(RowsOf(db.ledger[..n], s), db.ledger[..n], s)
  {
    if n > 0 {
      ScopePartSound(db, s, n - 1);
      assert RowCoupled(db, n - 1);
      assert db.ledger[..n] == db.ledger[..n - 1] + [db.ledger[n - 1]];
      SoundSnoc(db.ledger[..n - 1], db.events[n - 1], s);
    }
  }

  /** What the scope's ledger looks like in any coupled store. */
  ghost predicate SoundRows(rows: seq<LedgerRow>, s: Scope) {
    && ChainValid(rows)
    && DistinctIds(rows)
    && forall r :: r in rows ==> OfScope(s, r)
  }

  lemma ScopeRowsSound(db: Db, s: Scope)
    requires Coupled(db)
    ensures SoundRows(RowsOf(db.ledger, s), s)
    ensures EventsOf(db.events, s) == EventsIn(RowsOf(db.ledger, s))
  {
    assert db.ledger[..|db.ledger|] == db.ledger && db.events[..|db.events|] == db.events;
    ScopePartSound(db, s, |db.ledger|);
    ScopeEventsAreLedgered(db, s, |db.ledger|);
  }

  lemma ChainAppend(rows: seq<LedgerRow>, row: LedgerRow)
    requires ChainValid(rows)
    requires row.sequence == (if rows == [] then 1 else Last(rows).sequence + 1)
    requires row.prev == HeadOf(rows) && row.hash == EventHash(row.event)
    ensures ChainValid(rows + [row])
  {
    var longer := rows + [row];
    forall i | 0 <= i < |longer| ensures RowChained(longer, i) {
      if i < |rows| {
        assert RowChained(rows, i);
        assert longer[..i] == rows[..i];
      } else {
        assert longer[..i] == rows;
        assert rows != [] ==> RowChained(rows, |rows| - 1);
      }
    }
  }

  /** What a head commits to: two valid chains, of any lengths, have the same head
      exactly when both are empty or end in the same event. */
  lemma HeadCommitsToLastEvent(a: seq<LedgerRow>, b: seq<LedgerRow>)
    requires ChainValid(a) && ChainValid(b)
    ensures HeadOf(a) == HeadOf(b) <==>
              if a == [] || b == [] then a == b else Last(a).event == Last(b).event
  {
    if a != [] {
      assert RowChained(a, |a| - 1);
    }
    if b != [] {
      assert RowChained(b, |b| - 1);
    }
  }

  /** So the last row alone, renumbered, is a different valid chain with the same
      head, for every chain of more than one row. */
  lemma HeadDoesNotCommitToPrefix(rows: seq<LedgerRow>)
    requires ChainValid(rows) && rows != []
    ensures var alone := [Last(rows).(sequence := 1, prev := Genesis)];
            ChainValid(alone) && HeadOf(alone) == HeadOf(rows) && (|rows| > 1 ==> alone != rows)
  {
    assert RowChained(rows, |rows| - 1);
    assert RowChained([Last(rows).(sequence := 1, prev := Genesis)], 0);
  }

  // -------------------------------------------------------------------- the service

  class DynamicAuthorityService {
    var events: seq<Event>
    var ledger: seq<LedgerRow>
    var states: map<Scope, Snapshot>
    var resets: seq<Reset>
    var approvals: seq<ApprovalPayload>

    ghost function State(): Db
      reads this
    {
      Db(events, ledger, states, resets, approvals)
    }

    constructor ()
      ensures State() == EMPTY_DB
    {
      events, ledger, states, resets, approvals := [], [], map[], [], [];
    }

    method CountEvents(scope: Scope, since: real) returns (c: Counters)
      ensures c == CountFrom(EventsOf(events, scope), since, None)
    {
      var mine := EventsOf(events, scope);
      c := Counters(0, 0, 0);
      for k := 0 to |mine|
        invariant c == CountFrom(mine[..k], since, None)
      {
        assert mine[..k + 1][..k] == mine[..k];
        if mine[k].occurredAt >= since {
          c := Count(c, mine[k]);
        }
      }
      assert mine[..|mine|] == mine;
    }

    method TakeSnapshot(p: AuthorityPolicy, scope: Scope, now: real) returns (snapshot: Snapshot)
      modifies this`states
      ensures snapshot == SnapshotOf(old(State()), p, scope, now)
      ensures Reports(old(State()), p, scope, now, snapshot)
      ensures State() == Observe(old(State()), p, scope, now)
    {
      SnapshotMeans(State(), p, scope, now);
      var reset := LatestReset(resets, scope);
      var start := now - p.Window();
      if reset.Some? {
        start := MaxReal(start, reset.value.issuedAt);
      }
      var c := CountEvents(scope, start);
      var state, reason := Probation, InsufficientHistory;
      if scope in states && states[scope].state == Suspended && reset.None? {
        state, reason := Suspended, SuspendedUntilReset;
      } else if c.critical >= p.suspensionCritical {
        state, reason := Suspended, CriticalObserved;
      } else if c.adverse >= p.limitedAdverse {
        state, reason := Limited, AdverseThreshold;
      } else if c.successes >= p.standardSuccesses && c.adverse <= 1 {
        state, reason := Elevated, SuccessThreshold;
      } else if c.successes >= p.probationSuccesses && c.adverse <= 1 {
        state, reason := Standard, ProbationThreshold;
      }
      snapshot := Snapshot(scope, state, c, p.Multiplier(state), now, reason, HeadOf(RowsOf(ledger, scope)), p, start);
      states := states[scope := snapshot];
    }

    /** Both tables ignore an event whose id they already hold. */
    method Record(e: Event) returns (ok: bool)
      modifies this`events, this`ledger
      ensures ok <==> Recordable(e)
      ensures State() == RecordEvent(old(State()), e)
    {
      if TypeName(e.eventType) == "" || e.evidenceRef == "" {
        return false;
      }
      if !IsSuccess(e.eventType) && !IsAdverse(e.eventType) {
        return false;
      }
      events := InsertEvent(events, e);
      ledger := AppendLedger(ledger, e);
      return true;
    }
  }
}
