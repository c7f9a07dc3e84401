/** Concrete runs on the governed-policy tables: overlapping publications that
    store one version number twice, an overlapped freeze that brings an old digest
    back, and a refused publication that leaves its approval behind. */
module PolicyWitnesses {
  import opened Common
  import opened Governance
  import opened PolicyLineage
  import opened PolicyRuns
  import Traces

  const GOVERNANCE := GovernancePolicy("governance", 1, 1, [Member("g", "admin", "g")], [], 3600,
                                       ["POLICY_CHANGE", "POLICY_FREEZE", "POLICY_ROLLBACK"])

  const PID := PolicyIdOf("main")

  function ActionOf(id: string, body: ActionBody): GovernanceAction {
    GovernanceAction(id, "reason", id, GOVERNANCE, 0.0, 60.0, body)
  }

  function ApprovalOf(a: GovernanceAction): ApprovalPayload {
    ApprovalPayload(a, "g", "admin", a.actionId, 0.0, 60.0, a.actionId)
  }

  function Signed(sha: string, version: int, parent: Option<string>, createdAt: real): SignedVersion {
    SignedVersion(PolicyVersion(PID, version, sha, "main", parent, createdAt, map[]), "key")
  }

  function ChangeOf(id: string, signed: SignedVersion): GovernanceAction {
    var v := signed.payload;
    ActionOf(id, PolicyChange(v.policyId, v.sha, v.version, v.sourceRef, v.parent))
  }

  /** One governor's approval is a quorum here. */
  lemma OneApprovalSuffices(a: GovernanceAction, signed: Signatures)
    requires a == ActionOf(a.actionId, a.body) && a.actionId != "" && !a.body.AuthorityReset?
    requires ("g", ApprovalOf(a)) in signed
    ensures QuorumAccepts(a, [ApprovalOf(a)], GOVERNANCE, 1.0, signed)
  {
    assert MemberIds(GOVERNANCE.members) == ["g"];
    assert MemberFor(GOVERNANCE.members, "g") == Some(GOVERNANCE.members[0]);
    assert ActionName(a.body) in GOVERNANCE.allowedActions by {
      assert GOVERNANCE.allowedActions[0] == "POLICY_CHANGE" && GOVERNANCE.allowedActions[1] == "POLICY_FREEZE"
        && GOVERNANCE.allowedActions[2] == "POLICY_ROLLBACK";
    }
    assert Approves(ApprovalOf(a), a, GOVERNANCE, 1.0, signed);
  }

  // ------------------------------------------------------- one version number twice

  const FIRST_A := Signed("a", 1, None, 0.0)
  const FIRST_B := Signed("b", 1, None, 0.0)
  const PUBLISH_A := ChangeOf("1", FIRST_A)
  const PUBLISH_B := ChangeOf("2", FIRST_B)
  const BOTH_KEYS := Keys({FIRST_A, FIRST_B}, {("g", ApprovalOf(PUBLISH_A)), ("g", ApprovalOf(PUBLISH_B))})

  function Begin(i: nat, signed: SignedVersion, a: GovernanceAction): Step {
    BeginPublish(i, signed, a, [ApprovalOf(a)], GOVERNANCE, "key", 1.0)
  }

  /** Both publications check before either inserts. */
  const OVERLAP: seq<Step> := [
    Begin(0, FIRST_A, PUBLISH_A), Begin(1, FIRST_B, PUBLISH_B), ReadDigest(0), ReadDigest(1),
    ReadLatest(0), ReadLatest(1), InsertVersion(0), InsertVersion(1)]

  /** The tables after an insert that goes through. */
  function Stored(db: PolicyDb, signed: SignedVersion, a: GovernanceAction): PolicyDb {
    PolicyDb(db.versions[signed.payload.sha := signed], db.changes + [Change(signed, a)], db.controls, db.actions,
             db.approvals + [ApprovalOf(a)], db.approvals + [ApprovalOf(a)])
  }

  lemma InsertOne(table: seq<ApprovalPayload>, x: ApprovalPayload)
    ensures InsertApprovals(table, [x]) == if ApprovalTaken(table, x) then None else Some(table + [x])
  {
    assert [x][..0] == [];
  }

  lemma InsertGoesThrough(db: PolicyDb, signed: SignedVersion, a: GovernanceAction)
    requires !ApprovalTaken(db.approvals, ApprovalOf(a)) && signed.payload.sha !in db.versions
    requires Governed(db.changes, signed.payload.sha).None? && !ActionTaken(db.changes, a)
    ensures RegisterChange(db, signed, a, [ApprovalOf(a)]) == (Stored(db, signed, a), None)
  {
    InsertOne(db.approvals, ApprovalOf(a));
  }

  lemma GovernedSnoc(changes: seq<Change>, c: Change, sha: string)
    ensures Governed(changes + [c], sha) == if c.Sha() == sha then Some(c) else Governed(changes, sha)
  {
    assert (changes + [c])[..|changes|] == changes;
  }

  const W1 := INITIAL.At(0, Approved(FIRST_A, PUBLISH_A, [ApprovalOf(PUBLISH_A)]))
  const W2 := W1.At(1, Approved(FIRST_B, PUBLISH_B, [ApprovalOf(PUBLISH_B)]))
  const W3 := W2.At(0, Unpublished(FIRST_A, PUBLISH_A, [ApprovalOf(PUBLISH_A)]))
  const W4 := W3.At(1, Unpublished(FIRST_B, PUBLISH_B, [ApprovalOf(PUBLISH_B)]))
  const W5 := W4.At(0, Cleared(FIRST_A, PUBLISH_A, [ApprovalOf(PUBLISH_A)], 0))
  const W6 := W5.At(1, Cleared(FIRST_B, PUBLISH_B, [ApprovalOf(PUBLISH_B)], 0))
  const W7 := World(Stored(EMPTY_POLICY_DB, FIRST_A, PUBLISH_A), W6.workers[0 := Idle])
  const W8 := World(Stored(W7.db, FIRST_B, PUBLISH_B), W7.workers[1 := Idle])

  const OVERLAP_TRACE: seq<World> := [INITIAL, W1, W2, W3, W4, W5, W6, W7, W8]

  lemma NamesDiffer()
    ensures "a" != "b" && "1" != "2"
  {
    assert "a"[0] != "b"[0] && "1"[0] != "2"[0];
  }

  lemma Begins(i: nat, signed: SignedVersion, a: GovernanceAction, w: World, keys: Keys)
    requires signed in keys.versions && a == ChangeOf(a.actionId, signed) && a.actionId != ""
    requires var v := signed.payload; signed == Signed(v.sha, v.version, v.parent, v.createdAt)
    requires ("g", ApprovalOf(a)) in keys.approvals && w.Pc(i) == Idle
    ensures Next(w, Begin(i, signed, a), keys) == w.At(i, Approved(signed, a, [ApprovalOf(a)]))
  {
    OneApprovalSuffices(a, keys.approvals);
  }

  lemma Checks(k: nat)
    requires k < 6
    ensures StepTaken(OVERLAP, OVERLAP_TRACE, k, BOTH_KEYS)
  {
    if k == 0 {
      Begins(0, FIRST_A, PUBLISH_A, INITIAL, BOTH_KEYS);
    } else if k == 1 {
      Begins(1, FIRST_B, PUBLISH_B, W1, BOTH_KEYS);
    }
  }

  lemma Inserts()
    ensures StepTaken(OVERLAP, OVERLAP_TRACE, 6, BOTH_KEYS) && StepTaken(OVERLAP, OVERLAP_TRACE, 7, BOTH_KEYS)
  {
    NamesDiffer();
    InsertGoesThrough(EMPTY_POLICY_DB, FIRST_A, PUBLISH_A);
    GovernedSnoc([], Change(FIRST_A, PUBLISH_A), "b");
    InsertGoesThrough(W7.db, FIRST_B, PUBLISH_B);
  }

  lemma OverlapIsRun()
    ensures IsTrace(OVERLAP, OVERLAP_TRACE, BOTH_KEYS)
  {
    forall k | 0 <= k < |OVERLAP| ensures Traces.StepTaken(OVERLAP, OVERLAP_TRACE, k, Stepper(BOTH_KEYS)) {
      if k < 6 {
        Checks(k);
      } else {
        Inserts();
      }
    }
  }

  /** Two first versions of one policy id are not the versions 1, 2. */
  lemma {:induction false} TwoFirstVersions(a: Change, b: Change, pid: string)
    requires a.PolicyId() == b.PolicyId() == pid && b.Version() == 1
    ensures Lineage([] + [a] + [b], pid) == [a, b] && !LinesUp([a, b])
  {
    LineageSnoc([], a, pid);
    LineageSnoc([] + [a], b, pid);
    assert !Succeeds([a, b], 1);
  }

  /** Two publications of version 1 overlap and both are stored: the versions of the
      policy id are 1, 1. */
  lemma OverlapStoresVersionTwice()
    ensures IsTrace(OVERLAP, OVERLAP_TRACE, BOTH_KEYS)
    ensures !LinesUp(Lineage(OVERLAP_TRACE[8].db.changes, PID))
  {
    OverlapIsRun();
    TwoFirstVersions(Change(FIRST_A, PUBLISH_A), Change(FIRST_B, PUBLISH_B), PID);
  }

  // ---------------------------------------------------- an approval left behind

  const EARLIER_A := Signed("a", 1, None, 5.0)
  const V1 := INITIAL.(db := RegisterVersionSpec(EMPTY_POLICY_DB, EARLIER_A))
  const V2 := V1.At(0, Approved(FIRST_A, PUBLISH_A, [ApprovalOf(PUBLISH_A)]))
  const V3 := V2.At(0, Unpublished(FIRST_A, PUBLISH_A, [ApprovalOf(PUBLISH_A)]))
  const V4 := V3.At(0, Cleared(FIRST_A, PUBLISH_A, [ApprovalOf(PUBLISH_A)], 0))
  const V5 := World(V1.db.(approvals := [] + [ApprovalOf(PUBLISH_A)]), V4.workers[0 := Idle])

  const CONFLICT: seq<Step> := [
    RegisterVersion(EARLIER_A), Begin(0, FIRST_A, PUBLISH_A), ReadDigest(0), ReadLatest(0), InsertVersion(0)]

  const CONFLICT_TRACE: seq<World> := [INITIAL, V1, V2, V3, V4, V5]

  lemma ConflictChecks(k: nat)
    requires k < 4
    ensures StepTaken(CONFLICT, CONFLICT_TRACE, k, BOTH_KEYS)
  {
    if k == 1 {
      Begins(0, FIRST_A, PUBLISH_A, V1, BOTH_KEYS);
    }
  }

  lemma ConflictInsert()
    ensures StepTaken(CONFLICT, CONFLICT_TRACE, 4, BOTH_KEYS)
  {
    InsertOne([], ApprovalOf(PUBLISH_A));
    assert EARLIER_A != FIRST_A;
  }

  /** The engine registered its own artifact of a digest; publishing the same digest,
      signed at another time, is refused, and its approval stays in the table,
      uncommitted. */
  lemma ConflictLeavesApproval()
    ensures IsTrace(CONFLICT, CONFLICT_TRACE, BOTH_KEYS)
    ensures V5.db.changes == [] && V5.db.saved == [] && V5.db.approvals == [ApprovalOf(PUBLISH_A)]
  {
    forall k | 0 <= k < |CONFLICT| ensures Traces.StepTaken(CONFLICT, CONFLICT_TRACE, k, Stepper(BOTH_KEYS)) {
      if k < 4 {
        ConflictChecks(k);
      } else {
        ConflictInsert();
      }
    }
  }

  // ------------------------------------------- a freeze that revives an old digest

  const SECOND := Signed("b", 2, Some("a"), 0.0)
  const PUBLISH_SECOND := ChangeOf("2", SECOND)
  const FREEZE := ActionOf("3", PolicyFreeze(PID, "b"))
  const ROLLBACK := ActionOf("4", PolicyRollback(PID, "b", "a", 1))
  const FOUR_KEYS := Keys({FIRST_A, SECOND},
                          {("g", ApprovalOf(PUBLISH_A)), ("g", ApprovalOf(PUBLISH_SECOND)),
                           ("g", ApprovalOf(FREEZE)), ("g", ApprovalOf(ROLLBACK))})

  ghost function After(w: World, run: seq<Step>): World {
    Traces.Outcome(w, run, Stepper(FOUR_KEYS))
  }

  function Publication(signed: SignedVersion, a: GovernanceAction): seq<Step> {
    [Begin(0, signed, a), ReadDigest(0), ReadLatest(0), InsertVersion(0)]
  }

  function BeginOf(i: nat, a: GovernanceAction): Step {
    BeginControl(i, a, [ApprovalOf(a)], GOVERNANCE, 1.0)
  }

  function ReadsOf(i: nat): seq<Step> {
    [ReadControl(i), ReadControl(i), ReadControl(i), ReadControl(i)]
  }

  /** Version 1 and version 2 are published. */
  const PUBLISHED := Publication(FIRST_A, PUBLISH_A) + Publication(SECOND, PUBLISH_SECOND)

  /** A freeze of version 2 and a rollback to version 1 both pass their checks. */
  const CHECKED := PUBLISHED + [BeginOf(0, FREEZE)] + [BeginOf(1, ROLLBACK)] + ReadsOf(0) + ReadsOf(1)

  lemma AfterFour(w: World, s1: Step, s2: Step, s3: Step, s4: Step)
    ensures var next := Stepper(FOUR_KEYS);
            After(w, [s1, s2, s3, s4]) == next(next(next(next(w, s1), s2), s3), s4)
  {
    assert [s1, s2, s3, s4] == [s1] + [s2] + [s3] + [s4];
    var next := Stepper(FOUR_KEYS);
    Traces.OutcomeOfBoth(w, [s1] + [s2] + [s3], [s4], next);
    Traces.OutcomeOfBoth(w, [s1] + [s2], [s3], next);
    Traces.OutcomeOfBoth(w, [s1], [s2], next);
    Traces.OutcomeOfOne(w, s1, next);
    Traces.OutcomeOfOne(After(w, [s1]), s2, next);
    Traces.OutcomeOfOne(After(w, [s1] + [s2]), s3, next);
    Traces.OutcomeOfOne(After(w, [s1] + [s2] + [s3]), s4, next);
  }

  lemma AfterThen(w: World, run: seq<Step>, more: seq<Step>)
    ensures After(w, run + more) == After(After(w, run), more)
    ensures |more| == 1 ==> After(w, run + more) == Next(After(w, run), more[0], FOUR_KEYS)
  {
    Traces.OutcomeOfBoth(w, run, more, Stepper(FOUR_KEYS));
    if |more| == 1 {
      assert more == [more[0]];
      Traces.OutcomeOfOne(After(w, run), more[0], Stepper(FOUR_KEYS));
    }
  }

  /** The four calls of one publication by worker 0. */
  lemma Publishes(w: World, signed: SignedVersion, a: GovernanceAction)
    requires signed in FOUR_KEYS.versions && a == ChangeOf(a.actionId, signed) && a.actionId != ""
    requires var v := signed.payload; signed == Signed(v.sha, v.version, v.parent, v.createdAt)
    requires ("g", ApprovalOf(a)) in FOUR_KEYS.approvals && w.Pc(0) == w.Pc(1) == Idle
    requires SuccessionError(w.db.changes, signed.payload).None?
    requires !ApprovalTaken(w.db.approvals, ApprovalOf(a)) && signed.payload.sha !in w.db.versions
    requires !ActionTaken(w.db.changes, a)
    ensures var u := After(w, Publication(signed, a));
            u.db == Stored(w.db, signed, a) && u.Pc(0) == u.Pc(1) == Idle
  {
    AfterFour(w, Begin(0, signed, a), ReadDigest(0), ReadLatest(0), InsertVersion(0));
    Begins(0, signed, a, w, FOUR_KEYS);
    var begun := w.At(0, Approved(signed, a, [ApprovalOf(a)]));
    PublishReads(begun, signed, a);
    PublishInserts(Next(Next(begun, ReadDigest(0), FOUR_KEYS), ReadLatest(0), FOUR_KEYS), signed, a);
  }

  lemma PublishInserts(w: World, signed: SignedVersion, a: GovernanceAction)
    requires w.Pc(0).Cleared? && w.Pc(0).signed == signed && w.Pc(0).action == a
    requires w.Pc(0).approvals == [ApprovalOf(a)] && w.Pc(1) == Idle
    requires Governed(w.db.changes, signed.payload.sha).None? && !ActionTaken(w.db.changes, a)
    requires !ApprovalTaken(w.db.approvals, ApprovalOf(a)) && signed.payload.sha !in w.db.versions
    ensures var u := Next(w, InsertVersion(0), FOUR_KEYS);
            u.db == Stored(w.db, signed, a) && u.Pc(0) == u.Pc(1) == Idle
  {
    InsertGoesThrough(w.db, signed, a);
  }

  lemma PublishReads(w: World, signed: SignedVersion, a: GovernanceAction)
    requires w.Pc(0) == Approved(signed, a, [ApprovalOf(a)]) && w.Pc(1) == Idle
    requires SuccessionError(w.db.changes, signed.payload).None?
    ensures var u := Next(Next(w, ReadDigest(0), FOUR_KEYS), ReadLatest(0), FOUR_KEYS);
            && u.db == w.db && u.Pc(1) == Idle
            && u.Pc(0).Cleared? && u.Pc(0).signed == signed && u.Pc(0).action == a
            && u.Pc(0).approvals == [ApprovalOf(a)]
  {
  }

  lemma BothPublished()
    ensures var u := After(INITIAL, PUBLISHED);
            && u.Pc(0) == u.Pc(1) == Idle && u.db.controls == map[] && u.db.actions == []
            && u.db.changes == [] + [Change(FIRST_A, PUBLISH_A)] + [Change(SECOND, PUBLISH_SECOND)]
  {
    NamesDiffer();
    var c, w := Change(FIRST_A, PUBLISH_A), After(INITIAL, Publication(FIRST_A, PUBLISH_A));
    Publishes(INITIAL, FIRST_A, PUBLISH_A);
    GovernedSnoc([], c, "b");
    Publishes(w, SECOND, PUBLISH_SECOND);
    AfterThen(INITIAL, Publication(FIRST_A, PUBLISH_A), Publication(SECOND, PUBLISH_SECOND));
  }

  /** On two published versions both controls pass all their checks. */
  lemma BothPass(db: PolicyDb)
    requires db.controls == map[] && db.actions == []
    requires db.changes == [] + [Change(FIRST_A, PUBLISH_A)] + [Change(SECOND, PUBLISH_SECOND)]
    ensures ControlError(db, FREEZE).None? && ControlError(db, ROLLBACK).None?
  {
    NamesDiffer();
    var first, second := Change(FIRST_A, PUBLISH_A), Change(SECOND, PUBLISH_SECOND);
    GovernedSnoc([], first, "a");
    GovernedSnoc([] + [first], second, "a");
    GovernedSnoc([] + [first], second, "b");
  }

  lemma BothBegin(w: World)
    requires w.Pc(0) == w.Pc(1) == Idle
    ensures After(w, [BeginOf(0, FREEZE)] + [BeginOf(1, ROLLBACK)])
              == w.At(0, Checking(FREEZE, 0)).At(1, Checking(ROLLBACK, 0))
  {
    OneApprovalSuffices(FREEZE, FOUR_KEYS.approvals);
    OneApprovalSuffices(ROLLBACK, FOUR_KEYS.approvals);
    AfterThen(w, [], [BeginOf(0, FREEZE)]);
    assert [] + [BeginOf(0, FREEZE)] == [BeginOf(0, FREEZE)];
    AfterThen(w, [BeginOf(0, FREEZE)], [BeginOf(1, ROLLBACK)]);
  }

  /** Up to both checks: what a freeze that revives a digest needs. */
  lemma BothChecked()
    ensures exists w :: RevivalStarts(w)
                        && After(INITIAL, CHECKED) == WholeCheck(WholeCheck(w, 0, FOUR_KEYS), 1, FOUR_KEYS)
  {
    var u, begins := After(INITIAL, PUBLISHED), [BeginOf(0, FREEZE)] + [BeginOf(1, ROLLBACK)];
    BothPublished();
    BothBegin(u);
    BothPass(u.db);
    var w := After(u, begins);
    assert RevivalStarts(w);
    assert PUBLISHED + [BeginOf(0, FREEZE)] + [BeginOf(1, ROLLBACK)] == PUBLISHED + begins;
    AfterThen(INITIAL, PUBLISHED, begins);
    AfterThen(INITIAL, PUBLISHED + begins, ReadsOf(0));
    AfterThen(INITIAL, PUBLISHED + begins + ReadsOf(0), ReadsOf(1));
    AfterFour(w, ReadControl(0), ReadControl(0), ReadControl(0), ReadControl(0));
    var v := WholeCheck(w, 0, FOUR_KEYS);
    AfterFour(v, ReadControl(1), ReadControl(1), ReadControl(1), ReadControl(1));
  }

  ghost predicate RevivalStarts(w: World) {
    && w.Pc(0) == Checking(FREEZE, 0) && w.Pc(1) == Checking(ROLLBACK, 0)
    && ControlError(w.db, FREEZE).None? && ControlError(w.db, ROLLBACK).None?
    && w.db.controls == map[] && w.db.actions == []
  }

  /** From empty tables: the rollback takes effect first, and the freeze then makes
      the digest it had left active again, frozen. */
  lemma FreezeRevivesDigest()
    ensures var rolled := After(INITIAL, CHECKED + [UpsertControl(1)]);
            var frozen := After(INITIAL, CHECKED + [UpsertControl(1)] + [UpsertControl(0)]);
            && PID in rolled.db.controls && rolled.db.controls[PID] == Control("a", false)
            && PID in frozen.db.controls && frozen.db.controls[PID] == Control("b", true)
  {
    assert "3"[0] != "4"[0];
    BothChecked();
    var w :| RevivalStarts(w) && After(INITIAL, CHECKED) == WholeCheck(WholeCheck(w, 0, FOUR_KEYS), 1, FOUR_KEYS);
    StaleFreezeReactivates(w, 0, FREEZE, 1, ROLLBACK, FOUR_KEYS);
    AfterThen(INITIAL, CHECKED, [UpsertControl(1)]);
    AfterThen(INITIAL, CHECKED + [UpsertControl(1)], [UpsertControl(0)]);
  }
}
