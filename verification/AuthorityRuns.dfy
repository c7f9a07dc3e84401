/** Whole runs of the dynamic-authority store: events recorded, snapshots taken
    and resets applied in any order, starting from empty tables. What the live
    service decided at any step of a run is compared with what the offline
    validators recompute from the tables at its end. */
module AuthorityRuns {
  import opened Common
  import opened Models
  import opened Governance
  import opened DynamicAuthority
  import opened AuthorityResets
  import opened AuthorityValidators
  import Traces

  datatype Op =
    | Record(event: Event)
    | Take(policy: AuthorityPolicy, scope: Scope)
    | Recover(request: ResetRequest, capability: Option<CapabilityStatus>, verifiedAt: real)

  /** An operation and the time the service reads when it executes it. */
  datatype Timed = Timed(at: real, op: Op)

  ghost function Apply(db: Db, step: Timed, keyring: Keyring): Db {
    match step.op
    case Record(e) => RecordEvent(db, e)
    case Take(p, s) => Observe(db, p, s, step.at)
    case Recover(request, capability, verifiedAt) => ResetSpec(db, request, capability, verifiedAt, step.at, keyring).0
  }

  ghost function Stepper(keyring: Keyring): (Db, Timed) -> Db {
    (db: Db, step: Timed) => Apply(db, step, keyring)
  }

  /** `trace[k]` is the store after the first `k` operations. */
  ghost predicate IsTrace(run: seq<Timed>, trace: seq<Db>, keyring: Keyring) {
    Traces.IsTrace(EMPTY_DB, run, trace, Stepper(keyring))
  }

  ghost predicate StepTaken(run: seq<Timed>, trace: seq<Db>, k: nat, keyring: Keyring)
    requires k < |run| && |trace| == |run| + 1
  {
    Traces.StepTaken(run, trace, k, Stepper(keyring))
  }

  // ---------------------------------------------------------------- every run

  /** One operation keeps the invariant and only appends to events, ledger and
      resets. */
  lemma ApplyKeepsInv(db: Db, step: Timed, keyring: Keyring)
    requires ResetInv(db)
    ensures var u := Apply(db, step, keyring);
            && ResetInv(u)
            && db.ledger <= u.ledger && db.resets <= u.resets && db.approvals <= u.approvals
  {
    var u := Apply(db, step, keyring);
    match step.op {
      case Record(e) =>
        RecordKeepsCoupled(db, e);
      case Take(p, s) =>
        CoupledFrame(db, u);
      case Recover(request, capability, verifiedAt) =>
        ResetKeepsInv(db, request, capability, verifiedAt, step.at, keyring);
        ResetShape(db, request, capability, verifiedAt, step.at, keyring);
        if ResetSpec(db, request, capability, verifiedAt, step.at, keyring).1.Ok? {
          InsertedUnique(db.approvals, ApprovalsFrom(request));
        }
    }
  }

  /** In every run, at every step: event table and ledger agree row by row, the
      epochs of every scope are 1, 2, …, n with strictly increasing issue times,
      and no reset id, reset nonce or approval was used twice. */
  lemma {:induction false} RunKeepsInv(run: seq<Timed>, trace: seq<Db>, k: nat, keyring: Keyring)
    requires IsTrace(run, trace, keyring)
    requires k <= |run|
    ensures ResetInv(trace[k])
  {
    if k == 0 {
      assert forall s :: ResetsOf(EMPTY_DB.resets, s) == [];
    } else {
      RunKeepsInv(run, trace, k - 1, keyring);
      assert StepTaken(run, trace, k - 1, keyring);
      ApplyKeepsInv(trace[k - 1], run[k - 1], keyring);
    }
  }

  lemma FollowsTrans(a: Db, b: Db, c: Db)
    requires Follows(a, b) && Follows(b, c)
    ensures Follows(a, c)
  {
  }

  lemma StepFollows(run: seq<Timed>, trace: seq<Db>, k: nat, keyring: Keyring)
    requires IsTrace(run, trace, keyring)
    requires k < |run|
    ensures Follows(trace[k], trace[k + 1])
  {
    RunKeepsInv(run, trace, k, keyring);
    assert StepTaken(run, trace, k, keyring);
    ApplyKeepsInv(trace[k], run[k], keyring);
  }

  /** Later stores of a run extend earlier ones. */
  lemma {:induction false} RunExtends(run: seq<Timed>, trace: seq<Db>, i: nat, k: nat, keyring: Keyring)
    requires IsTrace(run, trace, keyring)
    requires i <= k <= |run|
    ensures Follows(trace[i], trace[k])
    decreases k
  {
    if i < k {
      RunExtends(run, trace, i, k - 1, keyring);
      StepFollows(run, trace, k - 1, keyring);
      FollowsTrans(trace[i], trace[k - 1], trace[k]);
    } else {
      RunKeepsInv(run, trace, k, keyring);
    }
  }

  lemma PrefixNoReset(a: seq<Reset>, b: seq<Reset>, s: Scope)
    requires a <= b && LatestReset(b, s).None?
    ensures LatestReset(a, s).None?
  {
    ResetsPrefix(a, b, s);
  }

  /** A refused reset leaves the suspension. */
  lemma SuspensionSurvivesRefusal(db: Db, request: ResetRequest, capability: Option<CapabilityStatus>, verifiedAt: real,
                                  now: real, s: Scope, keyring: Keyring)
    requires Sticky(db, s) && ResetSpec(db, request, capability, verifiedAt, now, keyring).1.Err?
    ensures StandsSuspended(ResetSpec(db, request, capability, verifiedAt, now, keyring).0, s)
  {
    ResetCases(db, request, capability, verifiedAt, now, keyring);
    if Checked(db, request, capability, verifiedAt, keyring) {
      RefusalKeepsSuspension(db, ResetFrom(request), ApprovalsFrom(request), now, s);
    }
  }

  /** A successful reset that leaves the scope without resets was of another one. */
  lemma ResetOfOther(db: Db, request: ResetRequest, capability: Option<CapabilityStatus>, verifiedAt: real,
                     now: real, s: Scope, keyring: Keyring)
    requires ResetSpec(db, request, capability, verifiedAt, now, keyring).1.Ok?
    requires LatestReset(ResetSpec(db, request, capability, verifiedAt, now, keyring).0.resets, s).None?
    ensures AboutReset(request) && ResetFrom(request).scope != s
  {
    ResetShape(db, request, capability, verifiedAt, now, keyring);
    LatestOfAppended(db.resets, ResetFrom(request));
  }

  /** One step cannot lift an observed suspension without a reset of its scope. */
  lemma SuspensionSurvivesStep(db: Db, step: Timed, s: Scope, keyring: Keyring)
    requires Sticky(db, s)
    requires LatestReset(Apply(db, step, keyring).resets, s).None?
    ensures StandsSuspended(Apply(db, step, keyring), s)
  {
    if step.op.Recover? {
      var request, capability, verifiedAt := step.op.request, step.op.capability, step.op.verifiedAt;
      if ResetSpec(db, request, capability, verifiedAt, step.at, keyring).1.Err? {
        SuspensionSurvivesRefusal(db, request, capability, verifiedAt, step.at, s, keyring);
      } else {
        ResetOfOther(db, request, capability, verifiedAt, step.at, s, keyring);
        OtherScopesKept(db, request, capability, verifiedAt, step.at, keyring, s);
      }
    }
  }

  lemma {:induction false} SuspensionStands(run: seq<Timed>, trace: seq<Db>, i: nat, k: nat, s: Scope, keyring: Keyring)
    requires IsTrace(run, trace, keyring)
    requires i <= k <= |run|
    requires StandsSuspended(trace[i], s)
    requires LatestReset(trace[k].resets, s).None?
    ensures Sticky(trace[k], s)
    decreases k
  {
    if i < k {
      StepFollows(run, trace, k - 1, keyring);
      PrefixNoReset(trace[k - 1].resets, trace[k].resets, s);
      SuspensionStands(run, trace, i, k - 1, s, keyring);
      assert StepTaken(run, trace, k - 1, keyring);
      SuspensionSurvivesStep(trace[k - 1], run[k - 1], s, keyring);
    }
  }

  /** Before the first reset of a scope, an observed suspension is absorbing: every
      snapshot at every later step reports it with multiplier zero, whatever is
      recorded and however much time passes. */
  lemma SuspensionIsAbsorbing(run: seq<Timed>, trace: seq<Db>, i: nat, k: nat, s: Scope, p: AuthorityPolicy,
                              now: real, keyring: Keyring)
    requires IsTrace(run, trace, keyring)
    requires i <= k <= |run|
    requires StandsSuspended(trace[i], s)
    requires LatestReset(trace[k].resets, s).None?
    ensures var snapshot := SnapshotOf(trace[k], p, s, now);
            snapshot.state == Suspended && snapshot.multiplier == 0.0 && snapshot.reason == SuspendedUntilReset
  {
    SuspensionStands(run, trace, i, k, s, keyring);
  }

  /** No event before an applied reset is counted at any later step of the run. */
  lemma ResetForgetsForever(run: seq<Timed>, trace: seq<Db>, i: nat, k: nat, r: Reset, p: AuthorityPolicy, now: real,
                            keyring: Keyring)
    requires IsTrace(run, trace, keyring)
    requires i <= k <= |run| && r in trace[i].resets
    ensures var db := trace[k];
            var snapshot := SnapshotOf(db, p, r.scope, now);
            && snapshot.historyStart >= r.issuedAt
            && snapshot.counters
               == CountFrom(Since(EventsOf(db.events, r.scope), r.issuedAt), snapshot.historyStart, None)
            && !Sticky(db, r.scope)
  {
    RunExtends(run, trace, i, k, keyring);
    RunKeepsInv(run, trace, k, keyring);
    assert r in trace[k].resets;
    NothingBeforeResetCounts(trace[k], r, p, now);
  }

  /** In every run each applied reset was requested at an earlier step, trusted when it
      was verified, and applicable to the tables it met. */
  lemma {:induction false} AppliedWasTrusted(run: seq<Timed>, trace: seq<Db>, k: nat, r: Reset, keyring: Keyring)
    returns (i: nat)
    requires IsTrace(run, trace, keyring) && k <= |run| && r in trace[k].resets
    ensures i < k && run[i].op.Recover? && Trusted(run[i].op.request, run[i].op.verifiedAt, keyring)
    ensures r == ResetFrom(run[i].op.request)
    ensures Applicable(trace[i], r, ApprovalsFrom(run[i].op.request), run[i].op.capability, run[i].at)
    decreases k
  {
    if k > 0 {
      var n := k - 1;
      assert StepTaken(run, trace, n, keyring);
      RunKeepsInv(run, trace, n, keyring);
      if r in trace[n].resets {
        i := AppliedWasTrusted(run, trace, n, r, keyring);
      } else {
        i := n;
        var op := run[n].op;
        assert op.Recover?;
        ResetShape(trace[n], op.request, op.capability, op.verifiedAt, run[n].at, keyring);
        AppliesExactly(trace[n], op.request, op.capability, op.verifiedAt, run[n].at, keyring);
      }
    }
  }

  // --------------------------------------------------------------- stamped runs

  /** Events and resets carry the time at which they are applied. */
  ghost predicate StampedStep(run: seq<Timed>, i: nat)
    requires i < |run|
  {
    match run[i].op
    case Record(e) => e.occurredAt == run[i].at
    case Take(_, _) => true
    case Recover(request, _, _) => AboutReset(request) ==> ResetFrom(request).issuedAt == run[i].at
  }

  ghost predicate Stamped(run: seq<Timed>) {
    && (forall i {:trigger StampedStep(run, i)} :: 0 <= i < |run| ==> StampedStep(run, i))
    && (forall i, j :: 0 <= i < j < |run| ==> run[i].at < run[j].at)
  }

  ghost predicate ResetFree(run: seq<Timed>) {
    forall i :: 0 <= i < |run| ==> !run[i].op.Recover?
  }

  /** `u` only appends to `db`, and only things stamped `t`. */
  ghost predicate AppendsAt(db: Db, u: Db, t: real) {
    && db.events <= u.events && db.ledger <= u.ledger && db.resets <= u.resets
    && (forall m :: |db.events| <= m < |u.events| ==> u.events[m].occurredAt == t)
    && (forall m :: |db.ledger| <= m < |u.ledger| ==> u.ledger[m].event.occurredAt == t)
    && (forall m :: |db.resets| <= m < |u.resets| ==> u.resets[m].issuedAt == t)
  }

  lemma ResetAppendsAt(db: Db, request: ResetRequest, capability: Option<CapabilityStatus>, verifiedAt: real, now: real,
                       keyring: Keyring)
    requires AboutReset(request) ==> ResetFrom(request).issuedAt == now
    ensures AppendsAt(db, ResetSpec(db, request, capability, verifiedAt, now, keyring).0, now)
  {
    ResetShape(db, request, capability, verifiedAt, now, keyring);
  }

  /** What one stamped step appends carries the step's time. */
  lemma StepStamps(run: seq<Timed>, trace: seq<Db>, k: nat, keyring: Keyring)
    requires IsTrace(run, trace, keyring)
    requires k < |run| && Stamped(run)
    ensures AppendsAt(trace[k], trace[k + 1], run[k].at)
  {
    RunKeepsInv(run, trace, k, keyring);
    assert StampedStep(run, k) && StepTaken(run, trace, k, keyring);
    match run[k].op {
      case Record(e) =>
        RecordKeepsCoupled(trace[k], e);
      case Take(_, _) =>
      case Recover(request, capability, verifiedAt) =>
        ResetAppendsAt(trace[k], request, capability, verifiedAt, run[k].at, keyring);
    }
  }

  ghost predicate AllBefore(db: Db, now: real) {
    && (forall e :: e in db.events ==> e.occurredAt < now)
    && (forall r :: r in db.resets ==> r.issuedAt < now)
  }

  lemma StepStaysBefore(run: seq<Timed>, trace: seq<Db>, k: nat, now: real, keyring: Keyring)
    requires IsTrace(run, trace, keyring)
    requires k < |run| && Stamped(run) && run[k].at < now
    requires AllBefore(trace[k], now)
    ensures AllBefore(trace[k + 1], now)
  {
    StepStamps(run, trace, k, keyring);
  }

  /** Everything stored before step `k` is stamped before it. */
  lemma {:induction false} PastIsStampedBefore(run: seq<Timed>, trace: seq<Db>, k: nat, now: real, keyring: Keyring)
    requires IsTrace(run, trace, keyring)
    requires k <= |run| && Stamped(run) && forall i :: 0 <= i < k ==> run[i].at < now
    ensures AllBefore(trace[k], now)
  {
    if k > 0 {
      PastIsStampedBefore(run, trace, k - 1, now, keyring);
      StepStaysBefore(run, trace, k - 1, now, keyring);
    }
  }

  ghost predicate AddedAfter(db: Db, u: Db, now: real) {
    && db.ledger <= u.ledger && db.resets <= u.resets
    && (forall m :: |db.ledger| <= m < |u.ledger| ==> u.ledger[m].event.occurredAt > now)
    && (forall m :: |db.resets| <= m < |u.resets| ==> u.resets[m].issuedAt > now)
  }

  lemma AddedAfterTrans(a: Db, b: Db, c: Db, now: real)
    requires AddedAfter(a, b, now) && AddedAfter(b, c, now)
    ensures AddedAfter(a, c, now)
  {
  }

  lemma StepAddsAfter(run: seq<Timed>, trace: seq<Db>, k: nat, now: real, keyring: Keyring)
    requires IsTrace(run, trace, keyring)
    requires k < |run| && Stamped(run) && run[k].at > now
    ensures AddedAfter(trace[k], trace[k + 1], now)
  {
    StepStamps(run, trace, k, keyring);
  }

  /** Everything stored from step `i` on is stamped after `now`. */
  lemma {:induction false} FutureIsStampedAfter(run: seq<Timed>, trace: seq<Db>, i: nat, k: nat, now: real,
                                                keyring: Keyring)
    requires IsTrace(run, trace, keyring)
    requires i <= k <= |run| && Stamped(run) && forall j :: i <= j < k ==> run[j].at > now
    ensures AddedAfter(trace[i], trace[k], now)
    decreases k
  {
    if i < k {
      FutureIsStampedAfter(run, trace, i, k - 1, now, keyring);
      StepAddsAfter(run, trace, k - 1, now, keyring);
      AddedAfterTrans(trace[i], trace[k - 1], trace[k], now);
    }
  }

  lemma {:induction false} ResetsBeyond(a: seq<Reset>, b: seq<Reset>, s: Scope, now: real)
    requires a <= b && forall m :: |a| <= m < |b| ==> b[m].issuedAt > now
    ensures ResetsOf(a, s) <= ResetsOf(b, s)
    ensures forall m :: |ResetsOf(a, s)| <= m < |ResetsOf(b, s)| ==> ResetsOf(b, s)[m].issuedAt > now
    decreases |b|
  {
    if |a| == |b| {
      assert a == b;
    } else {
      var front := b[..|b| - 1];
      assert forall m :: |a| <= m < |front| ==> front[m] == b[m];
      ResetsBeyond(a, front, s, now);
    }
  }

  lemma {:induction false} ResetsOfAreResets(resets: seq<Reset>, s: Scope)
    ensures forall r :: r in ResetsOf(resets, s) ==> r in resets
  {
    if resets != [] {
      ResetsOfAreResets(resets[..|resets| - 1], s);
      assert resets == resets[..|resets| - 1] + [Last(resets)];
    }
  }

  lemma {:induction false} NoResetsWithoutRecovery(run: seq<Timed>, trace: seq<Db>, k: nat, keyring: Keyring)
    requires IsTrace(run, trace, keyring)
    requires k <= |run| && ResetFree(run)
    ensures trace[k].resets == []
  {
    if k > 0 {
      NoResetsWithoutRecovery(run, trace, k - 1, keyring);
      assert StepTaken(run, trace, k - 1, keyring);
    }
  }

  lemma NothingPostdated(run: seq<Timed>, trace: seq<Db>, k: nat, from: real, now: real, s: Scope, keyring: Keyring)
    requires IsTrace(run, trace, keyring)
    requires k <= |run| && Stamped(run) && forall i :: 0 <= i < k ==> run[i].at < now
    ensures NonePostdated(EventsOf(trace[k].events, s), from, now)
  {
    PastIsStampedBefore(run, trace, k, now, keyring);
    EventsOfAreEvents(trace[k].events, s);
  }

  lemma NothingRecordedLate(run: seq<Timed>, trace: seq<Db>, i: nat, k: nat, now: real, s: Scope, keyring: Keyring)
    requires IsTrace(run, trace, keyring)
    requires i <= k <= |run| && Stamped(run) && forall j :: i <= j < k ==> run[j].at > now
    ensures Follows(trace[i], trace[k])
    ensures !AnyAtOrBefore(LaterRows(trace[i], trace[k], s), now)
  {
    RunExtends(run, trace, i, k, keyring);
    FutureIsStampedAfter(run, trace, i, k, now, keyring);
    RowsBeyond(trace[i].ledger, trace[k].ledger, s, now);
  }

  /** In every run with a strictly increasing clock and events and resets stamped
      when applied, the historical validator accepts, against the ledger at the end
      of the run, exactly those snapshots that were not sticky re-observations of a
      suspension and had no reset of their scope inside the window. */
  lemma HistoricalAcceptsRun(run: seq<Timed>, trace: seq<Db>, k: nat, keyring: Keyring)
    requires IsTrace(run, trace, keyring)
    requires Stamped(run) && k < |run| && run[k].op.Take?
    ensures var db, later, p, s := trace[k], trace[|run|], run[k].op.policy, run[k].op.scope;
            var snapshot := SnapshotOf(db, p, s, run[k].at);
            HistoricalVerdictOf(snapshot, RowsOf(later.ledger, s), p, snapshot.head) == HistoricalOk <==>
              !Sticky(db, s) && forall r :: r in ResetsOf(db.resets, s) ==> r.issuedAt <= run[k].at - p.Window()
  {
    var db, later, p, s := trace[k], trace[|run|], run[k].op.policy, run[k].op.scope;
    RunKeepsInv(run, trace, k, keyring);
    BoundaryIsPolicys(db, p, s, run[k].at);
    NothingPostdated(run, trace, k, HistoryStart(db, p, s, run[k].at), run[k].at, s, keyring);
    SnapshotThenLate(run, trace, k, s, keyring);
    HistoricalAcceptsExactly(db, later, p, s, run[k].at);
  }

  /** The history starts where the policy says exactly when every reset of the scope
      is at least a window old. */
  lemma BoundaryIsPolicys(db: Db, p: AuthorityPolicy, s: Scope, now: real)
    requires ResetInv(db)
    ensures HistoryStart(db, p, s, now) == now - p.Window() <==>
              forall r :: r in ResetsOf(db.resets, s) ==> r.issuedAt <= now - p.Window()
  {
    var rs := ResetsOf(db.resets, s);
    forall i | 0 <= i < |rs| ensures rs[i].issuedAt <= Last(rs).issuedAt {
      LatestIsGreatest(rs, i);
    }
    if rs != [] {
      assert Last(rs) in rs;
    }
  }

  /** Taking a snapshot adds no row, so only what follows it counts as later. */
  lemma SnapshotThenLate(run: seq<Timed>, trace: seq<Db>, k: nat, s: Scope, keyring: Keyring)
    requires IsTrace(run, trace, keyring)
    requires Stamped(run) && k < |run| && run[k].op.Take?
    ensures Follows(trace[k], trace[|run|])
    ensures !AnyAtOrBefore(LaterRows(trace[k], trace[|run|], s), run[k].at)
  {
    RunExtends(run, trace, k, |run|, keyring);
    NothingRecordedLate(run, trace, k + 1, |run|, run[k].at, s, keyring);
    assert StepTaken(run, trace, k, keyring);
  }

  /** With resets stamped when applied, replay accepts every snapshot the service
      took that is not suspended, however many events and resets follow. */
  lemma ReplayAcceptsRun(run: seq<Timed>, trace: seq<Db>, k: nat, keyring: Keyring)
    requires IsTrace(run, trace, keyring)
    requires Stamped(run) && k < |run| && run[k].op.Take? && run[k].op.policy.windowSeconds >= 0
    ensures var db, later, p, s := trace[k], trace[|run|], run[k].op.policy, run[k].op.scope;
            var snapshot := SnapshotOf(db, p, s, run[k].at);
            ReplayVerdictOf(RowsOf(later.ledger, s), ResetsOf(later.resets, s), snapshot, p, snapshot.head, true)
                == ReplayOk
            <==> (Sticky(db, s) ==> snapshot.counters.critical >= p.suspensionCritical)
  {
    var db, later, p, s := trace[k], trace[|run|], run[k].op.policy, run[k].op.scope;
    RunExtends(run, trace, k, |run|, keyring);
    RunKeepsInv(run, trace, |run|, keyring);
    EpochOrderIncreases(ResetsOf(later.resets, s));
    NothingPostdated(run, trace, k, HistoryStart(db, p, s, run[k].at), run[k].at, s, keyring);
    BoundaryStableInRun(run, trace, k, p, s, keyring);
    ReplayAcceptsExactly(db, later, p, s, run[k].at);
  }

  lemma EpochOrderIncreases(rs: seq<Reset>)
    requires EpochsInOrder(rs)
    ensures IssueTimesIncrease(rs)
  {
    forall i, j | 0 <= i < j < |rs| ensures rs[i].issuedAt < rs[j].issuedAt {
      OrderedBetween(rs, i, j);
    }
  }

  lemma {:induction false} OrderedBetween(rs: seq<Reset>, i: nat, j: nat)
    requires EpochsInOrder(rs) && i < j < |rs|
    ensures rs[i].issuedAt < rs[j].issuedAt
  {
    assert InEpochOrder(rs, j);
    if i + 1 < j {
      OrderedBetween(rs, i, j - 1);
    }
  }

  lemma BoundaryStableInRun(run: seq<Timed>, trace: seq<Db>, k: nat, p: AuthorityPolicy, s: Scope, keyring: Keyring)
    requires IsTrace(run, trace, keyring)
    requires Stamped(run) && k < |run| && run[k].op.Take?
    ensures ResetsOf(trace[k].resets, s) <= ResetsOf(trace[|run|].resets, s)
    ensures BoundaryStable(ResetsOf(trace[k].resets, s), ResetsOf(trace[|run|].resets, s), p, run[k].at)
  {
    var db, later := trace[k], trace[|run|];
    RunExtends(run, trace, k + 1, |run|, keyring);
    PastIsStampedBefore(run, trace, k, run[k].at, keyring);
    ResetsOfAreResets(db.resets, s);
    FutureIsStampedAfter(run, trace, k + 1, |run|, run[k].at, keyring);
    assert StepTaken(run, trace, k, keyring);
    ResetsBeyond(db.resets, later.resets, s, run[k].at);
  }

  // ----------------------------------------------------------- learning lifecycles

  /** Between steps `j` and `k` no snapshot of the scope came out suspended. */
  ghost predicate NoSuspendedSince(run: seq<Timed>, trace: seq<Db>, j: nat, k: nat, s: Scope, keyring: Keyring)
    requires k <= |run| < |trace|
  {
    forall i :: j < i < k && run[i].op.Take? && run[i].op.scope == s ==>
      SnapshotOf(trace[i], run[i].op.policy, s, run[i].at).state != Suspended
  }

  /** The stored state still agrees with a snapshot taken at step `j`. */
  lemma {:induction false} StateStands(run: seq<Timed>, trace: seq<Db>, j: nat, k: nat, s: Scope, keyring: Keyring)
    requires IsTrace(run, trace, keyring)
    requires j < k <= |run| && ResetFree(run)
    requires run[j].op.Take? && run[j].op.scope == s
    requires NoSuspendedSince(run, trace, j, k, s, keyring)
             || SnapshotOf(trace[j], run[j].op.policy, s, run[j].at).state == Suspended
    ensures Sticky(trace[k], s)
            <==> SnapshotOf(trace[j], run[j].op.policy, s, run[j].at).state == Suspended
    decreases k
  {
    NoResetsWithoutRecovery(run, trace, k, keyring);
    NoResetsWithoutRecovery(run, trace, k - 1, keyring);
    if j + 1 < k {
      StateStands(run, trace, j, k - 1, s, keyring);
    }
    assert StepTaken(run, trace, k - 1, keyring);
  }

  /** What the run establishes about a record at step `k`, the snapshot right after
      it and an earlier snapshot at step `j`. */
  lemma LearningFacts(run: seq<Timed>, trace: seq<Db>, j: nat, k: nat, s: Scope, keyring: Keyring)
    requires IsTrace(run, trace, keyring)
    requires Stamped(run) && j < k && k + 1 < |run| && run[k].op.Record? && run[k + 1].op.Take?
    ensures var u, p, now := trace[k + 1], run[k + 1].op.policy, run[k + 1].at;
            && Follows(trace[j], trace[k]) && Follows(u, trace[|run|]) && ResetInv(u)
            && u == RecordEvent(trace[k], run[k].op.event) && run[k].op.event.occurredAt == run[k].at < now
            && NonePostdated(EventsOf(u.events, s), now - p.Window(), now)
            && !AnyAtOrBefore(LaterRows(u, trace[|run|], s), now)
            && run[j].at < now
  {
    var now := run[k + 1].at;
    assert StampedStep(run, k) && StepTaken(run, trace, k, keyring);
    RunExtends(run, trace, j, k, keyring);
    RunKeepsInv(run, trace, k + 1, keyring);
    NothingPostdated(run, trace, k + 1, now - run[k + 1].op.policy.Window(), now, s, keyring);
    SnapshotThenLate(run, trace, k + 1, s, keyring);
  }

  /** A lifecycle that starts from a snapshot at step `j`, records a new learning
      event at step `k` and takes a snapshot with no step between. */
  ghost predicate Lifecycle(run: seq<Timed>, trace: seq<Db>, j: nat, k: nat, claim: Claim, attestation: Attestation,
                            beforeIdentity: Option<string>)
    requires |trace| == |run| + 1
  {
    && j < k && k + 1 < |run| && run[k].op.Record? && run[k + 1].op.Take? && run[j].op.Take?
    && var e := run[k].op.event;
       && run[j].op.scope == run[k + 1].op.scope == e.scope
       && Recordable(e) && !EventKnown(trace[k].events, EventId(e))
       && FollowsEvidence(claim, attestation, e,
                          SnapshotOf(trace[j], run[j].op.policy, e.scope, run[j].at), beforeIdentity)
  }

  /** In every stamped run, resets included, the learning validator accepts such a
      lifecycle against the ledger at the end of the run exactly if no reset of the
      scope lies inside the window, the event does, and the service stood on a
      suspension exactly if the history did. */
  lemma LearningAcceptsRun(run: seq<Timed>, trace: seq<Db>, j: nat, k: nat, claim: Claim, attestation: Attestation,
                           beforeIdentity: Option<string>, keyring: Keyring)
    requires IsTrace(run, trace, keyring) && Stamped(run)
    requires Lifecycle(run, trace, j, k, claim, attestation, beforeIdentity)
    ensures var e, p, u, now := run[k].op.event, run[k + 1].op.policy, trace[k + 1], run[k + 1].at;
            var before := SnapshotOf(trace[j], run[j].op.policy, e.scope, run[j].at);
            LearningVerdictOf(claim, attestation, e, before, beforeIdentity, SnapshotOf(u, p, e.scope, now),
              RowsOf(trace[|run|].ledger, e.scope), p, before.head) == LearningOk <==>
              && (forall r :: r in ResetsOf(u.resets, e.scope) ==> r.issuedAt <= now - p.Window())
              && now - p.Window() <= run[k].at
              && (Sticky(u, e.scope) <==> before.state == Suspended)
  {
    var e, p, now := run[k].op.event, run[k + 1].op.policy, run[k + 1].at;
    var before := SnapshotOf(trace[j], run[j].op.policy, e.scope, run[j].at);
    LearningFacts(run, trace, j, k, e.scope, keyring);
    BoundaryIsPolicys(trace[k + 1], p, e.scope, now);
    LearningAcceptsExactly(trace[j], trace[k], trace[|run|], e, claim, attestation, before, beforeIdentity, p, now);
  }

  /** Without resets, and with no suspended snapshot of the scope since the history,
      the first and the last condition hold, so only the event's age is left. */
  lemma LearningWithoutResets(run: seq<Timed>, trace: seq<Db>, j: nat, k: nat, claim: Claim,
                              attestation: Attestation, beforeIdentity: Option<string>, keyring: Keyring)
    requires IsTrace(run, trace, keyring) && Stamped(run) && ResetFree(run)
    requires Lifecycle(run, trace, j, k, claim, attestation, beforeIdentity)
    requires NoSuspendedSince(run, trace, j, k, run[k].op.event.scope, keyring)
    ensures var s := run[k].op.event.scope;
            && ResetsOf(trace[k + 1].resets, s) == []
            && (Sticky(trace[k + 1], s) <==>
                  SnapshotOf(trace[j], run[j].op.policy, s, run[j].at).state == Suspended)
  {
    NoResetsWithoutRecovery(run, trace, k + 1, keyring);
    StateStands(run, trace, j, k + 1, run[k].op.event.scope, keyring);
  }
}
