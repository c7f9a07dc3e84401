/** Concrete runs on the dynamic-authority tables, from empty ones: an overlapping
    snapshot that overwrites a suspension, a reset whose refreshed snapshot is
    suspended again, and a reset inside the window that makes the historical and
    learning validators refuse what replay accepts. */
module AuthorityWitnesses {
  import opened Common
  import opened Models
  import opened Governance
  import opened DynamicAuthority
  import opened AuthorityResets
  import opened AuthorityValidators
  import opened AuthorityWorlds
  import AuthorityRuns
  import AuthoritySnapshots
  import Traces

  const SCOPE := Scope("agent", "capability")
  const TAMPER := Event(SCOPE, None, TamperDetected, None, "evidence", map[], 1.0)
  const RESET := Reset(SCOPE, "reset", "governor", 1, "reason", 2.0, "nonce")
  const REQUEST := ByGovernor(RESET, "governor")
  const CAPABILITY := Some(CapabilityStatus("agent", true, true))
  const KEYRING := Keyring({("governor", RESET)}, {})

  ghost function Reached(steps: seq<Step>): World {
    After(INITIAL, steps, KEYRING)
  }

  lemma Then(steps: seq<Step>, step: Step)
    ensures Reached(steps + [step]) == Next(Reached(steps), step, KEYRING)
  {
    Traces.OutcomeOfBoth(INITIAL, steps, [step], Stepper(KEYRING));
    Traces.OutcomeOfOne(Reached(steps), step, Stepper(KEYRING));
  }

  function SnapshotSteps(i: nat): seq<Step> {
    [ReadReset(i)] + [ReadEvents(i)] + [ReadState(i)] + [ReadHead(i)] + [WriteState(i)]
  }

  lemma ThenSnapshot(steps: seq<Step>, i: nat)
    ensures Reached(steps + SnapshotSteps(i)) == WholeSnapshot(Reached(steps), i)
  {
    var s1 := steps + [ReadReset(i)];
    var s2 := s1 + [ReadEvents(i)];
    var s3 := s2 + [ReadState(i)];
    var s4 := s3 + [ReadHead(i)];
    Then(steps, ReadReset(i));
    Then(s1, ReadEvents(i));
    Then(s2, ReadState(i));
    Then(s3, ReadHead(i));
    Then(s4, WriteState(i));
    assert steps + SnapshotSteps(i) == s4 + [WriteState(i)];
  }

  lemma OneEvent(e: Event, from: real)
    requires e.scope == SCOPE
    ensures EventsOf([] + [e], SCOPE) == [e]
    ensures CountFrom([e], from, None)
              == if from <= e.occurredAt then Count(Counters(0, 0, 0), e) else Counters(0, 0, 0)
  {
    assert ([] + [e])[..0] == [] && [e][..0] == [];
  }

  lemma Tampered()
    ensures var db := RecordEvent(EMPTY_DB, TAMPER);
            db.events == [] + [TAMPER] && db.resets == [] && db.approvals == [] && db.states == map[]
  {
    assert Recordable(TAMPER);
  }

  lemma RequestPasses(now: real)
    requires 2.0 <= now <= 1000.0
    ensures Authentic(REQUEST, now, KEYRING) && CapabilityError(CAPABILITY, RESET).None?
    ensures ResetFrom(REQUEST) == RESET && ApprovalsFrom(REQUEST) == []
  {
  }

  /** One tampering suspends the scope. */
  lemma TamperSuspends(db: Db, now: real)
    requires db.events == [] + [TAMPER] && db.resets == [] && now <= 1000.0
    ensures SnapshotOf(db, DEFAULT_POLICY, SCOPE, now).state == Suspended
    ensures LatestCritical(EventsOf(db.events, SCOPE)) == Some(1.0)
  {
    var start := now - DEFAULT_POLICY.Window();
    assert start <= 1.0;
    OneEvent(TAMPER, start);
    TamperCritical();
    assert LatestReset(db.resets, SCOPE) == None && HistoryStart(db, DEFAULT_POLICY, SCOPE, now) == start;
    SuspendedExactly(db, DEFAULT_POLICY, SCOPE, now);
  }

  lemma TamperCritical()
    ensures LatestCritical([TAMPER]) == Some(1.0) && Count(Counters(0, 0, 0), TAMPER) == Counters(0, 1, 1)
  {
    assert [TAMPER][..0] == [];
  }

  // --------------------------------------------------------------- a lost suspension

  /** Worker 0 reads a healthy scope up to its state. */
  const HEALTHY_READ: seq<Step> :=
    [] + [BeginSnapshot(0, DEFAULT_POLICY, SCOPE, 0.0)] + [ReadReset(0)] + [ReadEvents(0)] + [ReadState(0)]

  /** Then a tampering is recorded, and worker 1 observes and stores the suspension. */
  const SUSPENDED: seq<Step> :=
    HEALTHY_READ + [Record(TAMPER)] + [BeginSnapshot(1, DEFAULT_POLICY, SCOPE, 2.0)] + SnapshotSteps(1)

  const HEALTHY := Recalled(Call(DEFAULT_POLICY, SCOPE, 0.0, Plain), None, Counters(0, 0, 0), false)

  lemma HealthyReads()
    ensures Reached(HEALTHY_READ).db == EMPTY_DB && Reached(HEALTHY_READ).Pc(0) == HEALTHY
    ensures Reached(HEALTHY_READ).Pc(1) == Idle
  {
    var s1 := [] + [BeginSnapshot(0, DEFAULT_POLICY, SCOPE, 0.0)];
    Then([], BeginSnapshot(0, DEFAULT_POLICY, SCOPE, 0.0));
    Then(s1, ReadReset(0));
    Then(s1 + [ReadReset(0)], ReadEvents(0));
    Then(s1 + [ReadReset(0)] + [ReadEvents(0)], ReadState(0));
  }

  lemma OthersStay(w: World, i: nat, j: nat)
    requires i != j
    ensures WholeSnapshot(w, i).Pc(j) == w.Pc(j)
  {
    var w1 := SnapshotStep(w, ReadReset(i));
    var w2 := SnapshotStep(w1, ReadEvents(i));
    var w3 := SnapshotStep(w2, ReadState(i));
    var w4 := SnapshotStep(w3, ReadHead(i));
    assert w1.Pc(j) == w.Pc(j) && w2.Pc(j) == w.Pc(j) && w3.Pc(j) == w.Pc(j) && w4.Pc(j) == w.Pc(j);
  }

  lemma SecondBegins()
    ensures var w := Reached(HEALTHY_READ + [Record(TAMPER)] + [BeginSnapshot(1, DEFAULT_POLICY, SCOPE, 2.0)]);
            && w.db == RecordEvent(EMPTY_DB, TAMPER) && w.Pc(0) == HEALTHY
            && w.Pc(1) == Began(Call(DEFAULT_POLICY, SCOPE, 2.0, Plain))
  {
    HealthyReads();
    Then(HEALTHY_READ, Record(TAMPER));
    Then(HEALTHY_READ + [Record(TAMPER)], BeginSnapshot(1, DEFAULT_POLICY, SCOPE, 2.0));
  }

  lemma SecondStores(w: World)
    requires w.db.events == [] + [TAMPER] && w.db.resets == [] && w.Pc(0) == HEALTHY
    requires w.Pc(1) == Began(Call(DEFAULT_POLICY, SCOPE, 2.0, Plain))
    ensures var v := WholeSnapshot(w, 1);
            StandsSuspended(v.db, SCOPE) && v.db.resets == [] && v.Pc(0) == HEALTHY
  {
    WholeSnapshotObserves(w, 1);
    OthersStay(w, 1, 0);
    TamperSuspends(w.db, 2.0);
  }

  lemma SuspensionStored()
    ensures var w := Reached(SUSPENDED);
            StandsSuspended(w.db, SCOPE) && w.db.resets == [] && w.Pc(0) == HEALTHY
  {
    var begun := HEALTHY_READ + [Record(TAMPER)] + [BeginSnapshot(1, DEFAULT_POLICY, SCOPE, 2.0)];
    SecondBegins();
    Tampered();
    SecondStores(Reached(begun));
    ThenSnapshot(begun, 1);
  }

  /** Worker 0 finishes its snapshot: the suspension that stood is overwritten, and no
      reset was ever applied. */
  lemma SuspensionIsLost()
    ensures StandsSuspended(Reached(SUSPENDED).db, SCOPE)
    ensures var w := Reached(SUSPENDED + [ReadHead(0)] + [WriteState(0)]);
            !StandsSuspended(w.db, SCOPE) && w.db.resets == [] && SCOPE in w.db.states
  {
    SuspensionStored();
    Then(SUSPENDED, ReadHead(0));
    Then(SUSPENDED + [ReadHead(0)], WriteState(0));
  }

  // ----------------------------------------------------- a refresh that is suspended

  const LATER_TAMPER := Event(SCOPE, None, TamperDetected, None, "later", map[], 6.0)

  /** A tampering is recorded and a reset of the suspended scope begins. */
  const REQUESTED: seq<Step> :=
    [] + [Record(TAMPER)] + [BeginReset(0, REQUEST, CAPABILITY, 5.0)] + [ReadEpoch(0, 5.0)]

  /** It finds the scope suspended and passes its check of critical outcomes. */
  const ADMITTED := REQUESTED + SnapshotSteps(0) + [ReadCriticals(0)]

  /** A second tampering is recorded before the reset is stored and refreshed. */
  const REFRESHED := ADMITTED + [Record(LATER_TAMPER)] + [InsertReset(0)] + SnapshotSteps(0)

  lemma ResetRequested()
    ensures var w := Reached(REQUESTED);
            && w.db == RecordEvent(EMPTY_DB, TAMPER)
            && w.Pc(0) == Began(Call(DEFAULT_POLICY, SCOPE, 5.0, BeforeReset(RESET, [])))
  {
    var s1 := [] + [Record(TAMPER)];
    Tampered();
    RequestPasses(5.0);
    Then([], Record(TAMPER));
    Then(s1, BeginReset(0, REQUEST, CAPABILITY, 5.0));
    assert Reached(s1 + [BeginReset(0, REQUEST, CAPABILITY, 5.0)]).Pc(0) == Requested(RESET, []);
    Then(s1 + [BeginReset(0, REQUEST, CAPABILITY, 5.0)], ReadEpoch(0, 5.0));
  }

  lemma FoundAndAdmitted(w: World)
    requires w.db.events == [] + [TAMPER] && w.db.resets == [] && w.db.approvals == []
    requires w.Pc(0) == Began(Call(DEFAULT_POLICY, SCOPE, 5.0, BeforeReset(RESET, [])))
    ensures var v := Next(WholeSnapshot(w, 0), ReadCriticals(0), KEYRING);
            && v.Pc(0) == Admitted(RESET, [], 1)
            && v.db.events == [] + [TAMPER] && v.db.resets == [] && v.db.approvals == []
  {
    WholeSnapshotObserves(w, 0);
    TamperSuspends(w.db, 5.0);
  }

  lemma ResetAdmitted()
    ensures var w := Reached(ADMITTED);
            && w.Pc(0) == Admitted(RESET, [], 1)
            && w.db.events == [] + [TAMPER] && w.db.resets == [] && w.db.approvals == []
  {
    ResetRequested();
    Tampered();
    FoundAndAdmitted(Reached(REQUESTED));
    ThenSnapshot(REQUESTED, 0);
    Then(REQUESTED + SnapshotSteps(0), ReadCriticals(0));
  }

  lemma TwoTampers()
    ensures !EventKnown([] + [TAMPER], EventId(LATER_TAMPER))
    ensures EventsOf([] + [TAMPER] + [LATER_TAMPER], SCOPE) == [TAMPER] + [LATER_TAMPER]
    ensures CountFrom([TAMPER] + [LATER_TAMPER], 2.0, None).critical == 1
  {
    assert |EventId(LATER_TAMPER)| < |EventId(TAMPER)|;
    OneEvent(TAMPER, 2.0);
    assert ([] + [TAMPER] + [LATER_TAMPER])[..1] == [] + [TAMPER];
    assert ([TAMPER] + [LATER_TAMPER])[..1] == [TAMPER];
  }

  lemma RefreshCounts(db: Db)
    requires db.events == [] + [TAMPER] + [LATER_TAMPER] && db.resets == [] + [RESET]
    ensures SnapshotOf(db, DEFAULT_POLICY, SCOPE, 2.0).state == Suspended
  {
    TwoTampers();
    LatestOfAppended([], RESET);
  }

  lemma ResetStored()
    ensures var w := Reached(ADMITTED + [Record(LATER_TAMPER)] + [InsertReset(0)]);
            && w.db.events == [] + [TAMPER] + [LATER_TAMPER] && w.db.resets == [] + [RESET]
            && w.Pc(0) == Began(Call(DEFAULT_POLICY, SCOPE, 2.0, AfterReset(RESET, 1)))
  {
    ResetAdmitted();
    TwoTampers();
    Then(ADMITTED, Record(LATER_TAMPER));
    Then(ADMITTED + [Record(LATER_TAMPER)], InsertReset(0));
  }

  /** The reset is applied, and the snapshot that refreshes the scope is suspended. */
  lemma RefreshIsSuspended()
    ensures var w := Reached(REFRESHED);
            w.db.resets == [] + [RESET] && StandsSuspended(w.db, SCOPE) && w.Pc(0) == Idle
  {
    var stored := ADMITTED + [Record(LATER_TAMPER)] + [InsertReset(0)];
    ResetStored();
    RefreshCounts(Reached(stored).db);
    ThenSnapshot(stored, 0);
    WholeSnapshotObserves(Reached(stored), 0);
  }

  // ------------------------------------------------- an outcome during a snapshot

  const LATE := Event(SCOPE, None, ExecutionConfirmed, None, "claim", map[], 3.0)
  const CALL := Call(DEFAULT_POLICY, SCOPE, 1.0, Plain)

  /** An outcome is recorded after a snapshot began and before it reads the events. */
  const IN_FLIGHT: seq<Step> := [
    BeginSnapshot(0, DEFAULT_POLICY, SCOPE, 1.0), ReadReset(0), Record(LATE), ReadEvents(0), ReadState(0), ReadHead(0)]

  const IN_FLIGHT_TIMES := [1.0, 2.0, 3.0, 4.0, 5.0, 6.0]

  lemma InFlightIsStamped()
    ensures AuthoritySnapshots.Stamped(IN_FLIGHT, IN_FLIGHT_TIMES)
  {
    forall k | 0 <= k < 6 ensures AuthoritySnapshots.StampedStep(IN_FLIGHT, IN_FLIGHT_TIMES, k) {
    }
  }

  lemma InFlightBegins(trace: seq<World>)
    requires IsTrace(IN_FLIGHT, trace, KEYRING)
    ensures trace[0] == INITIAL && trace[2].db == EMPTY_DB
    ensures trace[2].Pc(0).Bounded? && trace[2].Pc(0).call == CALL
  {
    assert StepTaken(IN_FLIGHT, trace, 0, KEYRING) && trace[1] == INITIAL.At(0, Began(CALL));
    assert StepTaken(IN_FLIGHT, trace, 1, KEYRING);
  }

  lemma InFlightRecords(trace: seq<World>)
    requires IsTrace(IN_FLIGHT, trace, KEYRING)
    ensures trace[3].db.events == [] + [LATE] && trace[3].Pc(0) == trace[2].Pc(0)
  {
    InFlightBegins(trace);
    assert StepTaken(IN_FLIGHT, trace, 2, KEYRING) && Recordable(LATE);
  }

  /** A read moves its worker on within the call. */
  lemma ReadMoves(w: World, i: nat)
    ensures w.Pc(i).Bounded? ==> var v := Next(w, ReadEvents(i), KEYRING);
              v.Pc(i).Counted? && v.Pc(i).call == w.Pc(i).call
    ensures w.Pc(i).Counted? ==> var v := Next(w, ReadState(i), KEYRING);
              v.Pc(i).Recalled? && v.Pc(i).call == w.Pc(i).call
    ensures w.Pc(i).Recalled? ==> var v := Next(w, ReadHead(i), KEYRING);
              v.Pc(i).Derived? && v.Pc(i).call == w.Pc(i).call
  {
  }

  lemma InFlightDerives(trace: seq<World>)
    requires IsTrace(IN_FLIGHT, trace, KEYRING)
    ensures trace[6].Pc(0).Derived? && trace[6].Pc(0).call == CALL
  {
    InFlightBegins(trace);
    InFlightRecords(trace);
    assert StepTaken(IN_FLIGHT, trace, 3, KEYRING);
    ReadMoves(trace[3], 0);
    assert StepTaken(IN_FLIGHT, trace, 4, KEYRING);
    ReadMoves(trace[4], 0);
    assert StepTaken(IN_FLIGHT, trace, 5, KEYRING);
    ReadMoves(trace[5], 0);
  }

  /** Whatever steps the snapshot was taken at, the outcome fell between its first and
      its event read. */
  lemma LateIsCounted(trace: seq<World>, x: AuthoritySnapshots.Reads, from: real)
    requires IsTrace(IN_FLIGHT, trace, KEYRING) && from <= 3.0
    requires trace[6].Pc(0).Derived? && trace[6].Pc(0).call == CALL
    requires AuthoritySnapshots.TakenAt(IN_FLIGHT, trace, 6, 0, x)
    ensures !AuthoritySnapshots.NoneBetween(trace[x.begun].db, trace[x.counted].db, SCOPE, from)
  {
    InFlightBegins(trace);
    InFlightRecords(trace);
    assert x.begun == 0 && x.counted == 3;
    assert trace[3].db.events[0] == LATE;
  }

  /** On the trace of this run, stamped and without any reset or suspension, the
      snapshot counts the outcome, and the historical validator refuses it. */
  lemma InFlightOutcomeRefused(trace: seq<World>)
    requires IsTrace(IN_FLIGHT, trace, KEYRING)
    ensures AuthoritySnapshots.Stamped(IN_FLIGHT, IN_FLIGHT_TIMES)
    ensures trace[6].Pc(0).Derived? && trace[6].Pc(0).call == CALL
    ensures var snapshot := trace[6].Pc(0).snapshot;
            HistoricalVerdictOf(snapshot, RowsOf(trace[6].db.ledger, CALL.scope), CALL.policy, snapshot.head)
              != HistoricalOk
  {
    InFlightIsStamped();
    InFlightDerives(trace);
    AuthoritySnapshots.EverySnapshotTaken(IN_FLIGHT, trace, 6, 0, KEYRING);
    var x :| AuthoritySnapshots.TakenAt(IN_FLIGHT, trace, 6, 0, x);
    AuthoritySnapshots.HistoricalAcceptsOverlapped(IN_FLIGHT, trace, IN_FLIGHT_TIMES, 6, 0, x, KEYRING);
    LateIsCounted(trace, x, 1.0 - DEFAULT_POLICY.Window());
  }

  // -------------------------------------------------- a reset inside the window

  const CONFIRMATION := Event(SCOPE, None, ExecutionConfirmed, None, "claim", map[], 4.0)
  const CLAIM := Claim(Succeeded, "agent", "claim")
  const ATTESTATION := Attestation("attestation", "INDEPENDENT")

  /** Tampering, reset, snapshot, a learning event and the snapshot after it. */
  const RECOVERY: seq<AuthorityRuns.Timed> := [
    AuthorityRuns.Timed(1.0, AuthorityRuns.Record(TAMPER)),
    AuthorityRuns.Timed(2.0, AuthorityRuns.Recover(REQUEST, CAPABILITY, 2.0)),
    AuthorityRuns.Timed(3.0, AuthorityRuns.Take(DEFAULT_POLICY, SCOPE)),
    AuthorityRuns.Timed(4.0, AuthorityRuns.Record(CONFIRMATION)),
    AuthorityRuns.Timed(5.0, AuthorityRuns.Take(DEFAULT_POLICY, SCOPE))]

  lemma RecoveryIsStamped()
    ensures AuthorityRuns.Stamped(RECOVERY)
  {
    forall i | 0 <= i < |RECOVERY| ensures AuthorityRuns.StampedStep(RECOVERY, i) {
    }
  }

  lemma ResetGoesThrough(db: Db)
    requires ResetInv(db) && db.events == [] + [TAMPER] && db.resets == [] && db.approvals == []
    ensures ResetSpec(db, REQUEST, CAPABILITY, 2.0, 2.0, KEYRING).1.Ok?
    ensures ResetSpec(db, REQUEST, CAPABILITY, 2.0, 2.0, KEYRING).0.resets == [] + [RESET]
  {
    TamperSuspends(db, 2.0);
    RequestPasses(2.0);
    ResetAppliesExactly(db, REQUEST, CAPABILITY, 2.0, 2.0, KEYRING);
    ResetShape(db, REQUEST, CAPABILITY, 2.0, 2.0, KEYRING);
  }

  lemma RecoverySteps(trace: seq<Db>)
    requires AuthorityRuns.IsTrace(RECOVERY, trace, KEYRING)
    ensures trace[1] == RecordEvent(EMPTY_DB, TAMPER) && ResetInv(trace[1])
    ensures trace[2] == ResetSpec(trace[1], REQUEST, CAPABILITY, 2.0, 2.0, KEYRING).0
    ensures trace[3] == Observe(trace[2], DEFAULT_POLICY, SCOPE, 3.0)
    ensures trace[4] == RecordEvent(trace[3], CONFIRMATION)
  {
    AuthorityRuns.RunKeepsInv(RECOVERY, trace, 1, KEYRING);
    assert AuthorityRuns.StepTaken(RECOVERY, trace, 0, KEYRING) && AuthorityRuns.StepTaken(RECOVERY, trace, 1, KEYRING);
    assert AuthorityRuns.StepTaken(RECOVERY, trace, 2, KEYRING) && AuthorityRuns.StepTaken(RECOVERY, trace, 3, KEYRING);
  }

  lemma RecoveryStores(trace: seq<Db>)
    requires AuthorityRuns.IsTrace(RECOVERY, trace, KEYRING)
    ensures trace[2].resets == [] + [RESET] && trace[4].resets == [] + [RESET]
    ensures trace[2].events == [] + [TAMPER] && trace[3].events == [] + [TAMPER]
  {
    RecoverySteps(trace);
    Tampered();
    ResetGoesThrough(trace[1]);
    ResetShape(trace[1], REQUEST, CAPABILITY, 2.0, 2.0, KEYRING);
  }

  lemma ResetInWindow(db: Db)
    requires db.resets == [] + [RESET]
    ensures RESET in ResetsOf(db.resets, SCOPE) && !Sticky(db, SCOPE)
  {
    ResetsOfMembers(db.resets, RESET.scope);
  }

  /** On the trace of this stamped run the snapshot taken at step 2 is refused by the
      historical validator and accepted by replay. */
  lemma ResetMakesHistoricalRefuse(trace: seq<Db>)
    requires AuthorityRuns.IsTrace(RECOVERY, trace, KEYRING)
    ensures AuthorityRuns.Stamped(RECOVERY) && RESET in trace[2].resets
    ensures var later, snapshot := trace[5], SnapshotOf(trace[2], DEFAULT_POLICY, SCOPE, 3.0);
            && HistoricalVerdictOf(snapshot, RowsOf(later.ledger, SCOPE), DEFAULT_POLICY, snapshot.head) != HistoricalOk
            && ReplayVerdictOf(RowsOf(later.ledger, SCOPE), ResetsOf(later.resets, SCOPE), snapshot, DEFAULT_POLICY,
                               snapshot.head, true) == ReplayOk
  {
    RecoveryIsStamped();
    RecoveryStores(trace);
    ResetInWindow(trace[2]);
    AuthorityRuns.HistoricalAcceptsRun(RECOVERY, trace, 2, KEYRING);
    AuthorityRuns.ReplayAcceptsRun(RECOVERY, trace, 2, KEYRING);
  }

  lemma ConfirmationIsNew()
    ensures !EventKnown([] + [TAMPER], EventId(CONFIRMATION))
  {
    assert |EventId(CONFIRMATION)| > |EventId(TAMPER)| || |EventId(CONFIRMATION)| < |EventId(TAMPER)|;
  }

  /** The lifecycle that follows is refused by the learning validator. */
  lemma ResetMakesLearningRefuse(trace: seq<Db>)
    requires AuthorityRuns.IsTrace(RECOVERY, trace, KEYRING)
    ensures AuthorityRuns.Lifecycle(RECOVERY, trace, 2, 3, CLAIM, ATTESTATION, None)
    ensures var before := SnapshotOf(trace[2], DEFAULT_POLICY, SCOPE, 3.0);
            var after := SnapshotOf(trace[4], DEFAULT_POLICY, SCOPE, 5.0);
            LearningVerdictOf(CLAIM, ATTESTATION, CONFIRMATION, before, None, after,
                              RowsOf(trace[5].ledger, SCOPE), DEFAULT_POLICY, before.head) != LearningOk
  {
    RecoveryIsStamped();
    RecoveryStores(trace);
    ConfirmationIsNew();
    ResetInWindow(trace[4]);
    AuthorityRuns.LearningAcceptsRun(RECOVERY, trace, 2, 3, CLAIM, ATTESTATION, None, KEYRING);
  }
}
