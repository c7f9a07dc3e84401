/** What the offline validators make of a snapshot that other calls overlapped: the
    five steps it took are found in the run, and when the clocks of the run agree
    the verdicts on it are stated in terms of what happened between those steps. */
module AuthoritySnapshots {
  import opened Common
  import opened Models
  import opened Governance
  import opened DynamicAuthority
  import opened AuthorityResets
  import opened AuthorityValidators
  import opened AuthorityWorlds
  import AuthorityRuns
  import Traces

  // ---------------------------------------------------- the steps of one snapshot

  /** The steps at which a snapshot was begun and did its four reads. */
  datatype Reads = Reads(begun: nat, bounded: nat, counted: nat, recalled: nat, headed: nat)

  /** The step begins this call of worker `i` and reads its clock, if it has one of
      its own: a refresh evaluates at the reset's issue time. */
  predicate BeginsCall(s: Step, i: nat, call: Call) {
    match s
    case BeginSnapshot(w, p, scope, now) => w == i && call == Call(p, scope, now, Plain)
    case ReadEpoch(w, now) => w == i && call.now == now && call.purpose.BeforeReset?
    case InsertReset(w) => w == i && call.purpose.AfterReset?
    case _ => false
  }

  ghost predicate InOrder(x: Reads, k: nat) {
    x.begun < x.bounded < x.counted < x.recalled < x.headed < k
  }

  /** Worker `i` has not moved since step `j`. */
  ghost predicate Stays(trace: seq<World>, j: nat, k: nat, i: nat)
    requires k < |trace|
  {
    j < k && forall m {:trigger trace[m].Pc(i)} :: j < m <= k ==> trace[m].Pc(i) == trace[k].Pc(i)
  }

  /** The snapshot that worker `i` is about to store at step `k` was begun and read
      at the steps `x`, and is made of what they saw. */
  ghost predicate TakenAt(run: seq<Step>, trace: seq<World>, k: nat, i: nat, x: Reads)
    requires k <= |run| && |trace| == |run| + 1 && trace[k].Pc(i).Derived?
  {
    var call := trace[k].Pc(i).call;
    && InOrder(x, k)
    && BeginsCall(run[x.begun], i, call)
    && run[x.bounded] == ReadReset(i) && run[x.counted] == ReadEvents(i)
    && run[x.recalled] == ReadState(i) && run[x.headed] == ReadHead(i)
    && trace[x.bounded].Pc(i) == Began(call) && trace[x.counted].Pc(i).Bounded?
    && trace[x.recalled].Pc(i).Counted? && trace[x.headed].Pc(i).Recalled?
    && Stays(trace, x.begun, x.bounded, i) && Stays(trace, x.bounded, x.counted, i)
    && Stays(trace, x.counted, x.recalled, i) && Stays(trace, x.recalled, x.headed, i)
    && Stays(trace, x.headed, k, i)
    && trace[k].Pc(i).snapshot
       == SplitSnapshot(trace[x.bounded].db, trace[x.counted].db, trace[x.recalled].db, trace[x.headed].db,
                        call.policy, call.scope, call.now)
  }

  ghost function Worker(i: nat): World -> Pc {
    (w: World) => w.Pc(i)
  }

  /** A worker that is not idle was brought where it is by some last step. */
  lemma MovedAt(run: seq<Step>, trace: seq<World>, k: nat, i: nat, keyring: Keyring) returns (j: nat)
    requires IsTrace(run, trace, keyring) && k <= |run| && trace[k].Pc(i) != Idle
    ensures j < k && Next(trace[j], run[j], keyring).Pc(i) == trace[k].Pc(i) != trace[j].Pc(i)
    ensures forall m :: j < m <= k ==> trace[m].Pc(i) == trace[k].Pc(i)
  {
    assert Worker(i)(trace[k]) != Worker(i)(trace[0]);
    Traces.LastChange(trace, Worker(i), k);
    j :| Traces.Entered(trace, Worker(i), j, k);
    assert forall m :: j < m <= k ==> Worker(i)(trace[m]) == trace[m].Pc(i);
    assert StepTaken(run, trace, j, keyring) && Worker(i)(trace[j]) == trace[j].Pc(i);
  }

  /** Which step brings a worker into each part of a snapshot, and with what. */
  lemma MovesAre(w: World, s: Step, i: nat, keyring: Keyring)
    requires Next(w, s, keyring).Pc(i) != w.Pc(i)
    ensures var pc := Next(w, s, keyring).Pc(i);
            && (pc.Began? ==> BeginsCall(s, i, pc.call))
            && (pc.Bounded? ==> s == ReadReset(i) && w.Pc(i) == Began(pc.call)
                                && pc.latest == LatestReset(w.db.resets, pc.call.scope))
            && (pc.Counted? ==> s == ReadEvents(i) && w.Pc(i) == Bounded(pc.call, pc.latest)
                                && pc.counters == CountFrom(EventsOf(w.db.events, pc.call.scope),
                                                            StartFrom(pc.call.policy, pc.call.now, pc.latest), None))
            && (pc.Recalled? ==> s == ReadState(i) && w.Pc(i) == Counted(pc.call, pc.latest, pc.counters)
                                 && pc.suspended == StandsSuspended(w.db, pc.call.scope))
            && (pc.Derived? ==> s == ReadHead(i) && w.Pc(i).Recalled? && w.Pc(i).call == pc.call
                                && pc.snapshot == SnapshotFrom(pc.call.policy, pc.call.scope, pc.call.now,
                                                               w.Pc(i).latest, w.Pc(i).counters, w.Pc(i).suspended,
                                                               HeadOf(RowsOf(w.db.ledger, pc.call.scope))))
  {
  }

  lemma DerivedAt(run: seq<Step>, trace: seq<World>, k: nat, i: nat, keyring: Keyring) returns (h: nat)
    requires IsTrace(run, trace, keyring) && k <= |run| && trace[k].Pc(i).Derived?
    ensures Stays(trace, h, k, i) && run[h] == ReadHead(i) && trace[h].Pc(i).Recalled?
    ensures var call, was := trace[k].Pc(i).call, trace[h].Pc(i);
            was.call == call && trace[k].Pc(i).snapshot ==
              SnapshotFrom(call.policy, call.scope, call.now, was.latest, was.counters, was.suspended,
                           HeadOf(RowsOf(trace[h].db.ledger, call.scope)))
  {
    h := MovedAt(run, trace, k, i, keyring);
    MovesAre(trace[h], run[h], i, keyring);
  }

  lemma RecalledAt(run: seq<Step>, trace: seq<World>, k: nat, i: nat, keyring: Keyring) returns (q: nat)
    requires IsTrace(run, trace, keyring) && k <= |run| && trace[k].Pc(i).Recalled?
    ensures var pc := trace[k].Pc(i);
            && Stays(trace, q, k, i) && run[q] == ReadState(i)
            && trace[q].Pc(i) == Counted(pc.call, pc.latest, pc.counters)
            && pc.suspended == StandsSuspended(trace[q].db, pc.call.scope)
  {
    q := MovedAt(run, trace, k, i, keyring);
    MovesAre(trace[q], run[q], i, keyring);
  }

  lemma CountedAt(run: seq<Step>, trace: seq<World>, k: nat, i: nat, keyring: Keyring) returns (c: nat)
    requires IsTrace(run, trace, keyring) && k <= |run| && trace[k].Pc(i).Counted?
    ensures var pc := trace[k].Pc(i);
            && Stays(trace, c, k, i) && run[c] == ReadEvents(i) && trace[c].Pc(i) == Bounded(pc.call, pc.latest)
            && pc.counters == CountFrom(EventsOf(trace[c].db.events, pc.call.scope),
                                        StartFrom(pc.call.policy, pc.call.now, pc.latest), None)
  {
    c := MovedAt(run, trace, k, i, keyring);
    MovesAre(trace[c], run[c], i, keyring);
  }

  lemma BoundedAt(run: seq<Step>, trace: seq<World>, k: nat, i: nat, keyring: Keyring) returns (r: nat)
    requires IsTrace(run, trace, keyring) && k <= |run| && trace[k].Pc(i).Bounded?
    ensures var pc := trace[k].Pc(i);
            && Stays(trace, r, k, i) && run[r] == ReadReset(i) && trace[r].Pc(i) == Began(pc.call)
            && pc.latest == LatestReset(trace[r].db.resets, pc.call.scope)
  {
    r := MovedAt(run, trace, k, i, keyring);
    MovesAre(trace[r], run[r], i, keyring);
  }

  lemma BeganAt(run: seq<Step>, trace: seq<World>, k: nat, i: nat, keyring: Keyring) returns (b: nat)
    requires IsTrace(run, trace, keyring) && k <= |run| && trace[k].Pc(i).Began?
    ensures Stays(trace, b, k, i) && BeginsCall(run[b], i, trace[k].Pc(i).call)
  {
    b := MovedAt(run, trace, k, i, keyring);
    MovesAre(trace[b], run[b], i, keyring);
  }

  /** Every snapshot about to be stored was taken at some steps of the run. */
  lemma EverySnapshotTaken(run: seq<Step>, trace: seq<World>, k: nat, i: nat, keyring: Keyring)
    requires IsTrace(run, trace, keyring) && k <= |run| && trace[k].Pc(i).Derived?
    ensures exists x :: TakenAt(run, trace, k, i, x)
  {
    var h := DerivedAt(run, trace, k, i, keyring);
    var q := RecalledAt(run, trace, h, i, keyring);
    var c := CountedAt(run, trace, q, i, keyring);
    var r := BoundedAt(run, trace, c, i, keyring);
    var b := BeganAt(run, trace, r, i, keyring);
    assert TakenAt(run, trace, k, i, Reads(b, r, c, q, h));
  }

  // ------------------------------------------------------------------ stamped runs

  /** An outcome carries the time at which it is recorded, and a snapshot the time
      at which it begins. */
  ghost predicate StampedStep(run: seq<Step>, at: seq<real>, k: nat)
    requires k < |run| == |at|
  {
    match run[k]
    case Record(e) => e.occurredAt == at[k]
    case BeginSnapshot(_, _, _, now) => now == at[k]
    case ReadEpoch(_, now) => now == at[k]
    case _ => true
  }

  ghost predicate Stamped(run: seq<Step>, at: seq<real>) {
    && |at| == |run|
    && (forall i, j :: 0 <= i < j < |at| ==> at[i] < at[j])
    && (forall k {:trigger StampedStep(run, at, k)} :: 0 <= k < |run| ==> StampedStep(run, at, k))
  }

  lemma StepFollows(run: seq<Step>, trace: seq<World>, k: nat, keyring: Keyring)
    requires IsTrace(run, trace, keyring) && k < |run|
    ensures Follows(trace[k].db, trace[k + 1].db) && trace[k].db.events <= trace[k + 1].db.events
    ensures trace[k + 1].db.events != trace[k].db.events ==>
              run[k].Record? && trace[k + 1].db.events == trace[k].db.events + [run[k].event]
  {
    RunKeepsInv(run, trace, k, keyring);
    RunKeepsInv(run, trace, k + 1, keyring);
    assert StepTaken(run, trace, k, keyring);
    if run[k].Record? {
      RecordKeepsCoupled(trace[k].db, run[k].event);
    } else {
      OnlyRecordsAdd(trace[k], run[k], keyring);
    }
  }

  lemma OnlyRecordsAdd(w: World, s: Step, keyring: Keyring)
    requires !s.Record?
    ensures var u := Next(w, s, keyring).db;
            u.events == w.db.events && u.ledger == w.db.ledger && w.db.resets <= u.resets
  {
  }

  /** Later stores of a run extend earlier ones. */
  lemma {:induction false} RunFollows(run: seq<Step>, trace: seq<World>, a: nat, b: nat, keyring: Keyring)
    requires IsTrace(run, trace, keyring) && a <= b <= |run|
    ensures Follows(trace[a].db, trace[b].db) && trace[a].db.events <= trace[b].db.events
    decreases b
  {
    if a < b {
      RunFollows(run, trace, a, b - 1, keyring);
      StepFollows(run, trace, b - 1, keyring);
    } else {
      RunKeepsInv(run, trace, a, keyring);
    }
  }

  ghost predicate EventsBefore(db: Db, t: real) {
    forall m :: 0 <= m < |db.events| ==> db.events[m].occurredAt < t
  }

  ghost predicate EventsAfter(db: Db, u: Db, t: real) {
    forall m :: |db.events| <= m < |u.events| ==> u.events[m].occurredAt > t
  }

  /** What is recorded before step `b` is stamped before its time. */
  lemma {:induction false} RecordedBefore(run: seq<Step>, trace: seq<World>, at: seq<real>, k: nat, t: real,
                                          keyring: Keyring)
    requires IsTrace(run, trace, keyring) && Stamped(run, at) && k <= |run|
    requires forall j :: 0 <= j < k ==> at[j] < t
    ensures EventsBefore(trace[k].db, t)
  {
    if k > 0 {
      RecordedBefore(run, trace, at, k - 1, t, keyring);
      StepFollows(run, trace, k - 1, keyring);
      assert StampedStep(run, at, k - 1);
    }
  }

  lemma {:induction false} RecordedSince(run: seq<Step>, trace: seq<World>, at: seq<real>, a: nat, b: nat, t: real,
                                         keyring: Keyring)
    requires IsTrace(run, trace, keyring) && Stamped(run, at) && a <= b <= |run|
    requires forall j :: a <= j < b ==> at[j] > t
    ensures EventsAfter(trace[a].db, trace[b].db, t)
    decreases b
  {
    if a < b {
      RecordedSince(run, trace, at, a, b - 1, t, keyring);
      RunFollows(run, trace, a, b - 1, keyring);
      StepFollows(run, trace, b - 1, keyring);
      assert StampedStep(run, at, b - 1);
    }
  }

  /** Around a snapshot begun at step `b`: what was recorded before is earlier than
      its evaluation, what is recorded afterwards is later. */
  lemma AroundBegin(run: seq<Step>, trace: seq<World>, at: seq<real>, b: nat, n: nat, keyring: Keyring)
    requires IsTrace(run, trace, keyring) && Stamped(run, at) && b < n <= |run| && !run[b].Record?
    ensures EventsBefore(trace[b].db, at[b]) && EventsAfter(trace[b].db, trace[n].db, at[b])
    ensures Follows(trace[b].db, trace[n].db) && trace[b].db.events <= trace[n].db.events
  {
    RecordedBefore(run, trace, at, b, at[b], keyring);
    StepFollows(run, trace, b, keyring);
    RecordedSince(run, trace, at, b + 1, n, at[b], keyring);
    RunFollows(run, trace, b, n, keyring);
  }

  lemma LedgerHoldsEvents(db: Db)
    requires Coupled(db)
    ensures |db.ledger| == |db.events|
    ensures forall m :: 0 <= m < |db.ledger| ==> db.ledger[m].event == db.events[m]
  {
    forall m | 0 <= m < |db.ledger| ensures db.ledger[m].event == db.events[m] {
      assert RowCoupled(db, m);
    }
  }

  /** Nothing recorded after a store read since the evaluation lies up to it. */
  lemma NothingLate(b: Db, headed: Db, later: Db, s: Scope, now: real)
    requires Follows(b, headed) && Follows(headed, later) && b.events <= headed.events <= later.events
    requires EventsAfter(b, later, now)
    ensures !AnyAtOrBefore(LaterRows(headed, later, s), now)
  {
    LedgerHoldsEvents(headed);
    LedgerHoldsEvents(later);
    RowsBeyond(headed.ledger, later.ledger, s, now);
  }

  lemma {:induction false} EventsOfExactly(events: seq<Event>, s: Scope)
    ensures forall e :: e in EventsOf(events, s) <==> e in events && e.scope == s
  {
    if events != [] {
      EventsOfExactly(events[..|events| - 1], s);
      assert events == events[..|events| - 1] + [Last(events)];
    }
  }

  /** No outcome of the scope at or after `from` was recorded between two stores. */
  ghost predicate NoneBetween(a: Db, b: Db, s: Scope, from: real) {
    forall k :: |a.events| <= k < |b.events| && b.events[k].scope == s ==> b.events[k].occurredAt < from
  }

  /** The outcomes counted although they lie after the evaluation are those recorded
      between the clock reading and the event read. */
  lemma PostdatedExactly(b: Db, counted: Db, s: Scope, from: real, now: real)
    requires b.events <= counted.events && EventsBefore(b, now) && EventsAfter(b, counted, now)
    ensures NonePostdated(EventsOf(counted.events, s), from, now) <==> NoneBetween(b, counted, s, from)
  {
    EventsOfExactly(counted.events, s);
    forall e | e in EventsOf(counted.events, s) && NoneBetween(b, counted, s, from) ensures !Postdated(e, from, now) {
      var m :| 0 <= m < |counted.events| && counted.events[m] == e;
      if m < |b.events| {
        assert b.events[m] == e;
      }
    }
  }

  /** What a stamped run establishes about the stores a snapshot was read in, begun
      in the store `b`. */
  ghost predicate ReadsAgree(b: Db, bounded: Db, counted: Db, headed: Db, later: Db, s: Scope, from: real, now: real) {
    && Follows(headed, later) && Follows(counted, headed) && bounded.resets <= later.resets
    && !AnyAtOrBefore(LaterRows(headed, later, s), now)
    && (CountsAgree(counted, headed, s, from, now) <==> NoneBetween(b, counted, s, from))
  }

  lemma ReadsInRun(run: seq<Step>, trace: seq<World>, at: seq<real>, x: Reads, s: Scope, from: real, keyring: Keyring)
    requires IsTrace(run, trace, keyring) && Stamped(run, at) && InOrder(x, |run|) && !run[x.begun].Record?
    ensures ReadsAgree(trace[x.begun].db, trace[x.bounded].db, trace[x.counted].db, trace[x.headed].db,
                       trace[|run|].db, s, from, at[x.begun])
  {
    var now := at[x.begun];
    AroundBegin(run, trace, at, x.begun, x.counted, keyring);
    AroundBegin(run, trace, at, x.begun, x.headed, keyring);
    AroundBegin(run, trace, at, x.begun, |run|, keyring);
    RunFollows(run, trace, x.counted, x.headed, keyring);
    RunFollows(run, trace, x.headed, |run|, keyring);
    RunFollows(run, trace, x.bounded, |run|, keyring);
    NothingLate(trace[x.begun].db, trace[x.headed].db, trace[|run|].db, s, now);
    StampedCountsAgree(trace[x.counted].db, trace[x.headed].db, s, from, now);
    PostdatedExactly(trace[x.begun].db, trace[x.counted].db, s, from, now);
  }

  /** A snapshot with a clock of its own evaluates at the time of its first step. */
  lemma EvaluatesAtBegin(run: seq<Step>, trace: seq<World>, at: seq<real>, k: nat, i: nat, x: Reads)
    requires Stamped(run, at) && k <= |run| && |trace| == |run| + 1 && trace[k].Pc(i).Derived?
    requires TakenAt(run, trace, k, i, x) && !trace[k].Pc(i).call.purpose.AfterReset?
    ensures InOrder(x, |run|) && !run[x.begun].Record? && trace[k].Pc(i).call.now == at[x.begun]
  {
    assert StampedStep(run, at, x.begun);
  }

  /** In every stamped run, whatever overlaps, the historical validator accepts a
      snapshot against the ledger at the end exactly if the reset it read is at least
      a window old, it did not re-observe a suspension, and no outcome of its scope
      inside the counted history was recorded between its clock reading and its
      event read. What is recorded between its event read and its head read does no
      harm. */
  lemma HistoricalAcceptsOverlapped(run: seq<Step>, trace: seq<World>, at: seq<real>, k: nat, i: nat, x: Reads,
                                    keyring: Keyring)
    requires IsTrace(run, trace, keyring) && Stamped(run, at) && k <= |run| && trace[k].Pc(i).Derived?
    requires TakenAt(run, trace, k, i, x) && !trace[k].Pc(i).call.purpose.AfterReset?
    ensures var call, snapshot := trace[k].Pc(i).call, trace[k].Pc(i).snapshot;
            HistoricalVerdictOf(snapshot, RowsOf(trace[|run|].db.ledger, call.scope), call.policy, snapshot.head)
                == HistoricalOk <==>
              && snapshot.historyStart == call.now - call.policy.Window()
              && !Stuck(trace[x.bounded].db, trace[x.recalled].db, call.scope)
              && NoneBetween(trace[x.begun].db, trace[x.counted].db, call.scope, snapshot.historyStart)
  {
    var call, snapshot := trace[k].Pc(i).call, trace[k].Pc(i).snapshot;
    EvaluatesAtBegin(run, trace, at, k, i, x);
    ReadsInRun(run, trace, at, x, call.scope, snapshot.historyStart, keyring);
    SplitHistoricalExactly(trace[x.bounded].db, trace[x.counted].db, trace[x.recalled].db, trace[x.headed].db,
                           trace[|run|].db, call.policy, call.scope, call.now);
  }

  /** Replay, likewise: resets may be stored while the snapshot is in flight, and what
      they must not do is lie between the window's start and the evaluation. */
  lemma ReplayAcceptsOverlapped(run: seq<Step>, trace: seq<World>, at: seq<real>, k: nat, i: nat, x: Reads,
                                keyring: Keyring)
    requires IsTrace(run, trace, keyring) && Stamped(run, at) && k <= |run| && trace[k].Pc(i).Derived?
    requires TakenAt(run, trace, k, i, x) && !trace[k].Pc(i).call.purpose.AfterReset?
    ensures var call, snapshot, later := trace[k].Pc(i).call, trace[k].Pc(i).snapshot, trace[|run|].db;
            var rs, all := ResetsOf(trace[x.bounded].db.resets, call.scope), ResetsOf(later.resets, call.scope);
            && rs <= all
            && (ReplayVerdictOf(RowsOf(later.ledger, call.scope), all, snapshot, call.policy, snapshot.head, true)
                  == ReplayOk <==>
                  && call.policy.windowSeconds >= 0
                  && BoundaryStable(rs, all, call.policy, call.now)
                  && NoneBetween(trace[x.begun].db, trace[x.counted].db, call.scope, snapshot.historyStart)
                  && (Stuck(trace[x.bounded].db, trace[x.recalled].db, call.scope) ==>
                        snapshot.counters.critical >= call.policy.suspensionCritical))
  {
    var call, snapshot := trace[k].Pc(i).call, trace[k].Pc(i).snapshot;
    EvaluatesAtBegin(run, trace, at, k, i, x);
    ReadsInRun(run, trace, at, x, call.scope, snapshot.historyStart, keyring);
    RunKeepsInv(run, trace, |run|, keyring);
    AuthorityRuns.EpochOrderIncreases(ResetsOf(trace[|run|].db.resets, call.scope));
    SplitReplayExactly(trace[x.bounded].db, trace[x.counted].db, trace[x.recalled].db, trace[x.headed].db,
                       trace[|run|].db, call.policy, call.scope, call.now);
  }

  /** A ledger that did not grow in the scope saw no outcome of it. */
  lemma SameRowsNoneBetween(first: Db, b: Db, counted: Db, last: Db, s: Scope, from: real)
    requires Follows(first, b) && Follows(b, counted) && Follows(counted, last)
    requires b.events <= counted.events
    requires RowsOf(last.ledger, s) == RowsOf(first.ledger, s)
    ensures NoneBetween(b, counted, s, from)
  {
    RowsPrefix(first.ledger, b.ledger, s);
    RowsPrefix(b.ledger, counted.ledger, s);
    RowsPrefix(counted.ledger, last.ledger, s);
    assert |RowsOf(b.ledger, s)| == |RowsOf(counted.ledger, s)|;
    ScopeRowsSound(b, s);
    ScopeRowsSound(counted, s);
    OnlyOthersBetween(b.events, counted.events, s);
  }

  lemma {:induction false} OnlyOthersBetween(a: seq<Event>, b: seq<Event>, s: Scope)
    requires a <= b
    ensures |EventsOf(a, s)| <= |EventsOf(b, s)|
    ensures |EventsOf(a, s)| == |EventsOf(b, s)| ==> forall k :: |a| <= k < |b| ==> b[k].scope != s
    decreases |b|
  {
    if |a| == |b| {
      assert a == b;
    } else {
      OnlyOthersBetween(a, b[..|b| - 1], s);
    }
  }

  /** The event was recorded last in `u`, before a snapshot evaluated at `now`: while
      its scope sees no other, the snapshot counts what is recounted. */
  ghost predicate EventPrecedes(u: Db, e: Event, counted: Db, headed: Db, from: real, now: real) {
    && Follows(u, headed) && e.occurredAt < now
    && (RowsOf(headed.ledger, e.scope) == RowsOf(u.ledger, e.scope) ==>
          CountsAgree(counted, headed, e.scope, from, now))
  }

  /** What is left of the learning verdict then. */
  lemma LearningBetween(earlier: Db, db: Db, u: Db, bounded: Db, counted: Db, recalled: Db, headed: Db, later: Db,
                        e: Event, claim: Claim, attestation: Attestation, before: Snapshot,
                        beforeIdentity: Option<string>, p: AuthorityPolicy, now: real)
    requires LearningStep(db, e, claim, attestation, before, beforeIdentity, earlier) && u == RecordEvent(db, e)
    requires EventPrecedes(u, e, counted, headed, now - p.Window(), now)
    requires Follows(headed, later) && !AnyAtOrBefore(LaterRows(headed, later, e.scope), now)
    ensures var after := SplitSnapshot(bounded, counted, recalled, headed, p, e.scope, now);
            LearningVerdictOf(claim, attestation, e, before, beforeIdentity, after, RowsOf(later.ledger, e.scope), p,
                              before.head) == LearningOk <==>
              && after.historyStart == now - p.Window()
              && now - p.Window() <= e.occurredAt
              && before.evaluatedAt <= now
              && RowsOf(headed.ledger, e.scope) == RowsOf(u.ledger, e.scope)
              && (Stuck(bounded, recalled, e.scope) <==> before.state == Suspended)
  {
    SplitLearningExactly(earlier, db, bounded, counted, recalled, headed, later, e, claim, attestation, before,
                         beforeIdentity, p, now);
  }

  /** A lifecycle records a new learning event `e` at step `n`, on a history whose head
      was read at step `j`, and begins its snapshot later. */
  ghost predicate Lifecycle(run: seq<Step>, trace: seq<World>, j: nat, n: nat, e: Event, x: Reads, claim: Claim,
                            attestation: Attestation, before: Snapshot, beforeIdentity: Option<string>)
    requires |trace| == |run| + 1
  {
    && j <= n < x.begun < |run| && run[n] == Record(e)
    && LearningStep(trace[n].db, e, claim, attestation, before, beforeIdentity, trace[j].db)
  }

  /** The learning validator, likewise, for a snapshot of policy `p` that read these
      stores: nothing of the scope may be recorded between the event and the head
      read, and the service must have stood on a suspension exactly if the history
      did. */
  lemma LearningAcceptsOverlapped(run: seq<Step>, trace: seq<World>, at: seq<real>, x: Reads, j: nat, n: nat,
                                  e: Event, p: AuthorityPolicy, claim: Claim, attestation: Attestation,
                                  before: Snapshot, beforeIdentity: Option<string>, keyring: Keyring)
    requires IsTrace(run, trace, keyring) && Stamped(run, at) && InOrder(x, |run|) && !run[x.begun].Record?
    requires Lifecycle(run, trace, j, n, e, x, claim, attestation, before, beforeIdentity)
    ensures var now := at[x.begun];
            var after := SplitSnapshot(trace[x.bounded].db, trace[x.counted].db, trace[x.recalled].db,
                                       trace[x.headed].db, p, e.scope, now);
            LearningVerdictOf(claim, attestation, e, before, beforeIdentity, after,
              RowsOf(trace[|run|].db.ledger, e.scope), p, before.head) == LearningOk <==>
              && after.historyStart == now - p.Window()
              && now - p.Window() <= e.occurredAt
              && before.evaluatedAt <= now
              && RowsOf(trace[x.headed].db.ledger, e.scope) == RowsOf(trace[n + 1].db.ledger, e.scope)
              && (Stuck(trace[x.bounded].db, trace[x.recalled].db, e.scope) <==> before.state == Suspended)
  {
    EventInRun(run, trace, at, n, e, x, at[x.begun] - p.Window(), keyring);
    LearningBetween(trace[j].db, trace[n].db, trace[n + 1].db, trace[x.bounded].db, trace[x.counted].db,
                    trace[x.recalled].db, trace[x.headed].db, trace[|run|].db, e, claim, attestation, before,
                    beforeIdentity, p, at[x.begun]);
  }

  lemma EventInRun(run: seq<Step>, trace: seq<World>, at: seq<real>, n: nat, e: Event, x: Reads, from: real,
                   keyring: Keyring)
    requires IsTrace(run, trace, keyring) && Stamped(run, at) && n < x.begun && InOrder(x, |run|)
    requires run[n] == Record(e) && !run[x.begun].Record?
    ensures trace[n + 1].db == RecordEvent(trace[n].db, e)
    ensures EventPrecedes(trace[n + 1].db, e, trace[x.counted].db, trace[x.headed].db, from, at[x.begun])
    ensures Follows(trace[x.headed].db, trace[|run|].db)
    ensures !AnyAtOrBefore(LaterRows(trace[x.headed].db, trace[|run|].db, e.scope), at[x.begun])
  {
    assert StampedStep(run, at, n) && StepTaken(run, trace, n, keyring);
    ReadsInRun(run, trace, at, x, e.scope, from, keyring);
    RunFollows(run, trace, n + 1, x.headed, keyring);
    RunFollows(run, trace, n + 1, x.begun, keyring);
    RunFollows(run, trace, x.begun, x.counted, keyring);
    if RowsOf(trace[x.headed].db.ledger, e.scope) == RowsOf(trace[n + 1].db.ledger, e.scope) {
      SameRowsNoneBetween(trace[n + 1].db, trace[x.begun].db, trace[x.counted].db, trace[x.headed].db, e.scope, from);
    }
  }
}
