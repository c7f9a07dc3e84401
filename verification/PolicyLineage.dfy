/** Governed policy versions and their freeze and rollback controls
    (core/policy_version.py), the tables behind them (core/storage.py) and the
    engine's gate on the active policy (core/engine.py). */
module PolicyLineage {
  import opened Common
  import opened Governance

  /** A policy digest stands for the policy text; a policy id is the hashed text. */
  datatype PolicyVersion = PolicyVersion(
    policyId: string,
    version: int,
    sha: string,
    sourceRef: string,
    parent: Option<string>,
    createdAt: real,
    metadata: map<string, string>)

  /** Ed25519 is deterministic: payload and key determine the signed document. */
  datatype SignedVersion = SignedVersion(payload: PolicyVersion, key: string)

  datatype Keys = Keys(versions: set<SignedVersion>, approvals: Signatures)

  function PolicyIdOf(sourceRef: string): string {
    "verigate-policy:" + sourceRef
  }

  datatype Change = Change(signed: SignedVersion, action: GovernanceAction)
  {
    function Sha(): string { signed.payload.sha }
    function PolicyId(): string { signed.payload.policyId }
    function Version(): int { signed.payload.version }
    function Parent(): Option<string> { signed.payload.parent }
  }

  datatype Control = Control(active: string, frozen: bool)

  /** `approvals` is what the connection sees, `saved` what is committed: a call
      that ends without commit or rollback leaves the two different. */
  datatype PolicyDb = PolicyDb(
    versions: map<string, SignedVersion>,
    changes: seq<Change>,
    controls: map<string, Control>,
    actions: seq<GovernanceAction>,
    approvals: seq<ApprovalPayload>,
    saved: seq<ApprovalPayload>)
  {
    function Commit(): PolicyDb { this.(saved := approvals) }
    function Rollback(): PolicyDb { this.(approvals := saved) }
  }

  const EMPTY_POLICY_DB := PolicyDb(map[], [], map[], [], [], [])

  datatype PolicyError =
    | BadVersion | NoQuorum | WrongAction | ActionMismatch | AlreadyPublished | FirstMustBeOne | NotMonotone
    | WrongParent
    | DigestBoundElsewhere | Conflict | ActionKnown | CurrentNotGoverned | OtherLineage | StaleActive | AlreadyFrozen
    | TargetNotGoverned | TargetVersionMismatch | TargetIsCurrent

  // -------------------------------------------------------------------- queries

  function Governed(changes: seq<Change>, sha: string): Option<Change> {
    if changes == [] then None
    else if Last(changes).Sha() == sha then Some(Last(changes))
    else Governed(changes[..|changes| - 1], sha)
  }

  /** `ORDER BY version DESC LIMIT 1` within a policy id. */
  function Latest(changes: seq<Change>, pid: string): Option<Change> {
    if changes == [] then None
    else
      var best, c := Latest(changes[..|changes| - 1], pid), Last(changes);
      if c.PolicyId() == pid && (best.None? || c.Version() > best.value.Version()) then Some(c) else best
  }

  predicate ActionTaken(changes: seq<Change>, a: GovernanceAction) {
    exists i :: 0 <= i < |changes| && (changes[i].action.actionId == a.actionId || changes[i].action.nonce == a.nonce)
  }

  predicate ControlIdKnown(actions: seq<GovernanceAction>, id: string) {
    exists i :: 0 <= i < |actions| && actions[i].actionId == id
  }

  predicate ControlTaken(actions: seq<GovernanceAction>, a: GovernanceAction) {
    exists i :: 0 <= i < |actions| && (actions[i].actionId == a.actionId || actions[i].nonce == a.nonce)
  }

  // ----------------------------------------------------------------- publishing

  predicate VersionAuthentic(signed: SignedVersion, key: string, keys: Keys) {
    && signed.payload.sourceRef != ""
    && signed.payload.policyId == PolicyIdOf(signed.payload.sourceRef)
    && signed.key == key && signed in keys.versions
  }

  predicate ActionDescribes(a: GovernanceAction, v: PolicyVersion) {
    a.body == PolicyChange(v.policyId, v.sha, v.version, v.sourceRef, v.parent)
  }

  /** The version and parent checks after the latest version was read. */
  function VersionError(changes: seq<Change>, v: PolicyVersion): Option<PolicyError> {
    var latest := Latest(changes, v.policyId);
    if latest.None? then
      if v.version != 1 || v.parent.Some? then Some(FirstMustBeOne) else None
    else if v.version != latest.value.Version() + 1 then Some(NotMonotone)
    else if v.parent != Some(latest.value.Sha()) then Some(WrongParent)
    else None
  }

  function SuccessionError(changes: seq<Change>, v: PolicyVersion): Option<PolicyError> {
    if Governed(changes, v.sha).Some? then Some(AlreadyPublished) else VersionError(changes, v)
  }

  /** `register_governed_policy_change`. A digest bound to other signed content is
      reported without rollback, so the approvals inserted before it stay. */
  function RegisterChange(db: PolicyDb, signed: SignedVersion, a: GovernanceAction, approvals: seq<ApprovalPayload>)
    : (PolicyDb, Option<PolicyError>)
  {
    var stored := InsertApprovals(db.approvals, approvals);
    if stored.None? then (db.Rollback(), Some(Conflict))
    else
      var sha := signed.payload.sha;
      var u := db.(approvals := stored.value);
      if sha in db.versions && db.versions[sha] != signed then (u, Some(DigestBoundElsewhere))
      else if Governed(db.changes, sha).Some? || ActionTaken(db.changes, a) then (db.Rollback(), Some(Conflict))
      else (u.(versions := u.versions[sha := signed], changes := u.changes + [Change(signed, a)]).Commit(), None)
  }

  ghost function PublishSpec(db: PolicyDb, signed: SignedVersion, a: GovernanceAction, approvals: seq<ApprovalPayload>,
                             policy: GovernancePolicy, key: string, now: real,
                             keys: Keys): (PolicyDb, Option<PolicyError>)
  {
    if !VersionAuthentic(signed, key, keys) then (db, Some(BadVersion))
    else if !QuorumAccepts(a, approvals, policy, now, keys.approvals) then (db, Some(NoQuorum))
    else if !a.body.PolicyChange? then (db, Some(WrongAction))
    else if !ActionDescribes(a, signed.payload) then (db, Some(ActionMismatch))
    else if SuccessionError(db.changes, signed.payload).Some? then (db, SuccessionError(db.changes, signed.payload))
    else RegisterChange(db, signed, a, approvals)
  }

  // ------------------------------------------------------------------- controls

  function TargetOf(a: GovernanceAction): string
    requires a.body.PolicyFreeze? || a.body.PolicyRollback?
  {
    if a.body.PolicyFreeze? then a.body.current else a.body.target
  }

  /** The four storage reads of `apply`, each with the checks that follow it: the
      action id, the current digest, the control row, the rollback target. */
  function ControlCheck(db: PolicyDb, a: GovernanceAction, read: nat): Option<PolicyError> {
    if read == 0 then
      if ControlIdKnown(db.actions, a.actionId) then Some(ActionKnown)
      else if !a.body.PolicyFreeze? && !a.body.PolicyRollback? then Some(WrongAction)
      else None
    else if !a.body.PolicyFreeze? && !a.body.PolicyRollback? then None
    else if read == 1 then MemberError(db.changes, a.body.policyId, a.body.current, CurrentNotGoverned)
    else if read == 2 then
      if a.body.policyId !in db.controls then None
      else if db.controls[a.body.policyId].active != a.body.current then Some(StaleActive)
      else if a.body.PolicyFreeze? && db.controls[a.body.policyId].frozen then Some(AlreadyFrozen)
      else None
    else if read == 3 && a.body.PolicyRollback? then TargetError(db.changes, a)
    else None
  }

  function MemberError(changes: seq<Change>, pid: string, sha: string, missing: PolicyError): Option<PolicyError> {
    var governed := Governed(changes, sha);
    if governed.None? then Some(missing)
    else if governed.value.PolicyId() != pid then Some(OtherLineage)
    else None
  }

  function TargetError(changes: seq<Change>, a: GovernanceAction): Option<PolicyError>
    requires a.body.PolicyRollback?
  {
    var error := MemberError(changes, a.body.policyId, a.body.target, TargetNotGoverned);
    if error.Some? then error
    else if Governed(changes, a.body.target).value.Version() != a.body.targetVersion then Some(TargetVersionMismatch)
    else if a.body.target == a.body.current then Some(TargetIsCurrent)
    else None
  }

  /** The first failing check when nothing intervenes. */
  function ControlError(db: PolicyDb, a: GovernanceAction): Option<PolicyError> {
    if ControlCheck(db, a, 0).Some? then ControlCheck(db, a, 0)
    else if ControlCheck(db, a, 1).Some? then ControlCheck(db, a, 1)
    else if ControlCheck(db, a, 2).Some? then ControlCheck(db, a, 2)
    else ControlCheck(db, a, 3)
  }

  /** `apply_policy_control`. */
  function StoreControl(db: PolicyDb, a: GovernanceAction): (PolicyDb, Option<PolicyError>)
    requires a.body.PolicyFreeze? || a.body.PolicyRollback?
  {
    if ControlTaken(db.actions, a) then (db.Rollback(), Some(Conflict))
    else
      var control := Control(TargetOf(a), a.body.PolicyFreeze?);
      (db.(actions := db.actions + [a], controls := db.controls[a.body.policyId := control]).Commit(), None)
  }

  ghost function ControlSpec(db: PolicyDb, a: GovernanceAction, approvals: seq<ApprovalPayload>,
                             policy: GovernancePolicy,
                             now: real, keys: Keys): (PolicyDb, Option<PolicyError>)
  {
    if !QuorumAccepts(a, approvals, policy, now, keys.approvals) then (db, Some(NoQuorum))
    else if ControlError(db, a).Some? then (db, ControlError(db, a))
    else StoreControl(db, a)
  }

  /** `register_policy_version` replaces and commits. */
  function RegisterVersionSpec(db: PolicyDb, signed: SignedVersion): PolicyDb {
    db.(versions := db.versions[signed.payload.sha := signed]).Commit()
  }

  // ----------------------------------------------------------------------- gate

  /** The engine's gate for the policy it runs. */
  predicate GatePasses(db: PolicyDb, sha: string, version: int, sourceRef: string, parent: Option<string>) {
    && Governed(db.changes, sha).Some?
    && var v := Governed(db.changes, sha).value.signed.payload;
       && v.version == version && v.sourceRef == sourceRef && v.parent == parent
       && (v.policyId in db.controls ==>
             !db.controls[v.policyId].frozen && db.controls[v.policyId].active == sha)
  }

  // ------------------------------------------------------------------ invariants

  function Lineage(changes: seq<Change>, pid: string): seq<Change> {
    if changes == [] then []
    else Lineage(changes[..|changes| - 1], pid) + if Last(changes).PolicyId() == pid then [Last(changes)] else []
  }

  /** Version `i + 1`, naming the digest of version `i`. */
  ghost predicate Succeeds(line: seq<Change>, i: nat)
    requires i < |line|
  {
    line[i].Version() == i + 1 && line[i].Parent() == if i == 0 then None else Some(line[i - 1].Sha())
  }

  ghost predicate LinesUp(line: seq<Change>) {
    forall i {:trigger Succeeds(line, i)} :: 0 <= i < |line| ==> Succeeds(line, i)
  }

  ghost predicate ChangesDistinct(changes: seq<Change>) {
    forall i, j :: 0 <= i < j < |changes| ==>
      && changes[i].Sha() != changes[j].Sha()
      && changes[i].action.actionId != changes[j].action.actionId
      && changes[i].action.nonce != changes[j].action.nonce
  }

  ghost predicate ControlActionsDistinct(actions: seq<GovernanceAction>) {
    forall i, j :: 0 <= i < j < |actions| ==>
      actions[i].actionId != actions[j].actionId && actions[i].nonce != actions[j].nonce
  }

  ghost predicate ActiveIsMember(db: PolicyDb, pid: string)
    requires pid in db.controls
  {
    exists c :: c in Lineage(db.changes, pid) && c.Sha() == db.controls[pid].active
  }

  /** A first version, or one that names an earlier version of its policy id, one
      lower, as parent. */
  ghost predicate MayFollow(changes: seq<Change>, v: PolicyVersion) {
    || (v.version == 1 && v.parent == None)
    || exists c :: c in changes && c.PolicyId() == v.policyId && c.Version() + 1 == v.version
                   && v.parent == Some(c.Sha())
  }

  ghost predicate Descends(changes: seq<Change>, i: nat)
    requires i < |changes|
  {
    MayFollow(changes[..i], changes[i].signed.payload)
  }

  ghost predicate AllDescend(changes: seq<Change>) {
    forall i {:trigger Descends(changes, i)} :: 0 <= i < |changes| ==> Descends(changes, i)
  }

  /** What holds of the tables however calls overlap. */
  ghost predicate PolicyInv(db: PolicyDb) {
    && AllDescend(db.changes)
    && ChangesDistinct(db.changes)
    && ControlActionsDistinct(db.actions)
    && (forall pid :: pid in db.controls ==> ActiveIsMember(db, pid))
    && ApprovalsUnique(db.approvals) && db.saved <= db.approvals
  }

  lemma {:induction false} LatestEndsLineage(changes: seq<Change>, pid: string)
    requires LinesUp(Lineage(changes, pid))
    ensures Latest(changes, pid) == if Lineage(changes, pid) == [] then None else Some(Last(Lineage(changes, pid)))
  {
    if changes != [] {
      var front, line := changes[..|changes| - 1], Lineage(changes, pid);
      var shorter := Lineage(front, pid);
      forall i | 0 <= i < |shorter| ensures Succeeds(shorter, i) {
        assert Succeeds(line, i);
      }
      LatestEndsLineage(front, pid);
      if Last(changes).PolicyId() == pid {
        assert Succeeds(line, |line| - 1);
        if shorter != [] {
          assert Succeeds(shorter, |shorter| - 1);
        }
      } else {
        assert line == shorter;
      }
    }
  }

  lemma {:induction false} GovernedExactly(changes: seq<Change>, sha: string)
    ensures Governed(changes, sha).Some? <==> exists c :: c in changes && c.Sha() == sha
    ensures Governed(changes, sha).Some? ==>
              Governed(changes, sha).value in changes && Governed(changes, sha).value.Sha() == sha
  {
    if changes != [] {
      GovernedExactly(changes[..|changes| - 1], sha);
      assert changes == changes[..|changes| - 1] + [Last(changes)];
      assert Last(changes) in changes;
    }
  }

  lemma {:induction false} LineageMembers(changes: seq<Change>, pid: string)
    ensures forall c :: c in Lineage(changes, pid) <==> c in changes && c.PolicyId() == pid
  {
    if changes != [] {
      LineageMembers(changes[..|changes| - 1], pid);
      assert changes == changes[..|changes| - 1] + [Last(changes)];
    }
  }

  lemma LineageSnoc(changes: seq<Change>, c: Change, pid: string)
    ensures Lineage(changes + [c], pid) == Lineage(changes, pid) + if c.PolicyId() == pid then [c] else []
  {
    assert (changes + [c])[..|changes|] == changes;
  }

  // ---------------------------------------------------------- storage transactions

  lemma DescendsSnoc(changes: seq<Change>, c: Change)
    requires AllDescend(changes) && MayFollow(changes, c.signed.payload)
    ensures AllDescend(changes + [c])
  {
    var longer := changes + [c];
    forall i | 0 <= i < |longer| ensures Descends(longer, i) {
      if i < |changes| {
        assert Descends(changes, i);
        assert longer[..i] == changes[..i];
      } else {
        assert longer[..i] == changes;
      }
    }
  }

  lemma DistinctGrows(changes: seq<Change>, c: Change)
    requires ChangesDistinct(changes) && Governed(changes, c.Sha()).None? && !ActionTaken(changes, c.action)
    ensures ChangesDistinct(changes + [c])
  {
    GovernedExactly(changes, c.Sha());
    var longer := changes + [c];
    forall i | 0 <= i < |changes|
      ensures longer[i].Sha() != c.Sha() && longer[i].action.actionId != c.action.actionId
      ensures longer[i].action.nonce != c.action.nonce
    {
      assert changes[i] in changes;
    }
  }

  lemma ControlsGrow(db: PolicyDb, u: PolicyDb, c: Change)
    requires forall pid :: pid in db.controls ==> ActiveIsMember(db, pid)
    requires u.changes == db.changes + [c] && u.controls == db.controls
    ensures forall pid :: pid in u.controls ==> ActiveIsMember(u, pid)
  {
    forall pid | pid in u.controls ensures ActiveIsMember(u, pid) {
      assert ActiveIsMember(db, pid);
      LineageSnoc(db.changes, c, pid);
      var d :| d in Lineage(db.changes, pid) && d.Sha() == db.controls[pid].active;
      assert d in Lineage(u.changes, pid);
    }
  }

  lemma ControlsFrame(db: PolicyDb, u: PolicyDb)
    requires forall pid :: pid in db.controls ==> ActiveIsMember(db, pid)
    requires u.changes == db.changes && u.controls == db.controls
    ensures forall pid :: pid in u.controls ==> ActiveIsMember(u, pid)
  {
    forall pid | pid in u.controls ensures ActiveIsMember(u, pid) {
      assert ActiveIsMember(db, pid);
    }
  }

  /** The insert keeps the invariant for every version that names a stored
      predecessor, however stale. */
  lemma RegisterKeepsInv(db: PolicyDb, signed: SignedVersion, a: GovernanceAction, approvals: seq<ApprovalPayload>)
    requires PolicyInv(db) && MayFollow(db.changes, signed.payload)
    ensures PolicyInv(RegisterChange(db, signed, a, approvals).0)
  {
    var (u, error) := RegisterChange(db, signed, a, approvals);
    InsertedUnique(db.approvals, approvals);
    if error.None? {
      var c := Change(signed, a);
      DescendsSnoc(db.changes, c);
      DistinctGrows(db.changes, c);
      ControlsGrow(db, u, c);
    } else {
      ControlsFrame(db, u);
    }
  }

  ghost predicate IsMember(changes: seq<Change>, pid: string, sha: string) {
    exists c :: c in Lineage(changes, pid) && c.Sha() == sha
  }

  lemma MemberExactly(changes: seq<Change>, pid: string, sha: string, missing: PolicyError)
    requires ChangesDistinct(changes)
    ensures MemberError(changes, pid, sha, missing).None? <==> IsMember(changes, pid, sha)
  {
    GovernedExactly(changes, sha);
    LineageMembers(changes, pid);
    if c :| c in Lineage(changes, pid) && c.Sha() == sha {
      var d := Governed(changes, sha).value;
      var i :| 0 <= i < |changes| && changes[i] == c;
      var j :| 0 <= j < |changes| && changes[j] == d;
    }
  }

  /** The upsert keeps the invariant for every target that is a governed member. */
  lemma StoreKeepsInv(db: PolicyDb, a: GovernanceAction)
    requires PolicyInv(db) && (a.body.PolicyFreeze? || a.body.PolicyRollback?)
    requires IsMember(db.changes, a.body.policyId, TargetOf(a))
    ensures PolicyInv(StoreControl(db, a).0)
  {
    var (u, error) := StoreControl(db, a);
    forall pid | pid in u.controls ensures ActiveIsMember(u, pid) {
      if pid != a.body.policyId || error.Some? {
        assert ActiveIsMember(db, pid);
      } else {
        assert IsMember(db.changes, pid, TargetOf(a));
      }
    }
  }

  /** The version after the last one of its lineage, whatever the lineage. */
  lemma SuccessionFollows(changes: seq<Change>, v: PolicyVersion)
    requires VersionError(changes, v).None?
    ensures MayFollow(changes, v)
  {
    LatestIsMember(changes, v.policyId);
  }

  lemma {:induction false} LatestIsMember(changes: seq<Change>, pid: string)
    ensures Latest(changes, pid).Some? ==>
              Latest(changes, pid).value in changes && Latest(changes, pid).value.PolicyId() == pid
    ensures Latest(changes, pid).None? <==> Lineage(changes, pid) == []
  {
    if changes != [] {
      LatestIsMember(changes[..|changes| - 1], pid);
      assert changes == changes[..|changes| - 1] + [Last(changes)];
    }
  }

  // ---------------------------------------------------------- uninterrupted calls

  /** A signed version to publish: signed with the given key, with the policy id of its
      own source. */
  ghost predicate SignedFor(signed: SignedVersion, key: string, keys: Keys) {
    && signed in keys.versions && signed.key == key
    && signed.payload.sourceRef != "" && signed.payload.policyId == "verigate-policy:" + signed.payload.sourceRef
  }

  /** Exactly when a publication goes through on a lineage 1, 2, …, n: the version is
      signed for its source, the quorum approves exactly it, it is the next version
      and names the last one as parent, its digest is neither governed nor bound to
      other signed content, and action and approvals are new. Then the version, its
      change and its approvals are stored and committed. */
  lemma PublishSucceedsExactly(db: PolicyDb, signed: SignedVersion, a: GovernanceAction,
                               approvals: seq<ApprovalPayload>,
                               policy: GovernancePolicy, key: string, now: real, keys: Keys)
    requires PolicyInv(db) && LinesUp(Lineage(db.changes, signed.payload.policyId))
    ensures var v := signed.payload;
            var line := Lineage(db.changes, v.policyId);
            PublishSpec(db, signed, a, approvals, policy, key, now, keys).1.None? <==>
              && SignedFor(signed, key, keys)
              && QuorumAccepts(a, approvals, policy, now, keys.approvals)
              && a.body == PolicyChange(v.policyId, v.sha, v.version, v.sourceRef, v.parent)
              && v.version == |line| + 1
              && v.parent == (if line == [] then None else Some(Last(line).signed.payload.sha))
              && (forall c :: c in db.changes ==>
                    && c.signed.payload.sha != v.sha
                    && c.action.actionId != a.actionId && c.action.nonce != a.nonce)
              && (v.sha in db.versions ==> db.versions[v.sha] == signed)
              && ApprovalsUnique(db.approvals + approvals)
    ensures var (u, error) := PublishSpec(db, signed, a, approvals, policy, key, now, keys);
            error.None? ==>
              u == PolicyDb(db.versions[signed.payload.sha := signed], db.changes + [Change(signed, a)], db.controls,
                            db.actions, db.approvals + approvals, db.approvals + approvals)
  {
    SuccessionExactly(db.changes, signed.payload);
    GovernedExactly(db.changes, signed.payload.sha);
    InsertedUnique(db.approvals, approvals);
    if i :| 0 <= i < |db.changes|
            && (db.changes[i].action.actionId == a.actionId || db.changes[i].action.nonce == a.nonce)
    {
      assert db.changes[i] in db.changes && ActionTaken(db.changes, a);
    }
  }

  /** The version read as latest is a stored one with the highest number of its policy. */
  lemma {:induction false} LatestIsHighest(changes: seq<Change>, pid: string)
    ensures Latest(changes, pid).Some? <==> exists c :: c in changes && c.signed.payload.policyId == pid
    ensures forall c :: c in changes && c.signed.payload.policyId == pid ==>
              Latest(changes, pid).Some?
              && c.signed.payload.version <= Latest(changes, pid).value.signed.payload.version
    ensures Latest(changes, pid).Some? ==>
              Latest(changes, pid).value in changes && Latest(changes, pid).value.signed.payload.policyId == pid
  {
    if changes != [] {
      LatestIsHighest(changes[..|changes| - 1], pid);
      assert changes == changes[..|changes| - 1] + [Last(changes)];
      assert Last(changes) in changes;
    }
  }

  /** What a refused publication names: the first thing that is wrong. */
  lemma PublishRefusalNames(db: PolicyDb, signed: SignedVersion, a: GovernanceAction, approvals: seq<ApprovalPayload>,
                            policy: GovernancePolicy, key: string, now: real, keys: Keys)
    requires PublishSpec(db, signed, a, approvals, policy, key, now, keys).1.Some?
    ensures var v, latest := signed.payload, Latest(db.changes, signed.payload.policyId);
            var approved := SignedFor(signed, key, keys) && QuorumAccepts(a, approvals, policy, now, keys.approvals);
            var described := approved && a.body == PolicyChange(v.policyId, v.sha, v.version, v.sourceRef, v.parent);
            var unused := described && forall c :: c in db.changes ==> c.signed.payload.sha != v.sha;
            match PublishSpec(db, signed, a, approvals, policy, key, now, keys).1.value
            case BadVersion => !SignedFor(signed, key, keys)
            case NoQuorum => SignedFor(signed, key, keys) && !approved
            case WrongAction => approved && !a.body.PolicyChange?
            case ActionMismatch => approved && a.body.PolicyChange? && !described
            case AlreadyPublished => described && !unused
            case FirstMustBeOne => unused && latest == None && !(v.version == 1 && v.parent == None)
            case NotMonotone => unused && latest.Some? && v.version != latest.value.Version() + 1
            case WrongParent =>
              unused && latest.Some? && v.version == latest.value.Version() + 1 && v.parent != Some(latest.value.Sha())
            case DigestBoundElsewhere => unused && v.sha in db.versions && db.versions[v.sha] != signed
            case Conflict => unused
            case _ => false
  {
    GovernedExactly(db.changes, signed.payload.sha);
  }

  lemma SuccessionExactly(changes: seq<Change>, v: PolicyVersion)
    requires LinesUp(Lineage(changes, v.policyId))
    ensures var line := Lineage(changes, v.policyId);
            VersionError(changes, v).None? <==>
              v.version == |line| + 1 && v.parent == if line == [] then None else Some(Last(line).Sha())
  {
    var line := Lineage(changes, v.policyId);
    LatestEndsLineage(changes, v.policyId);
    if line != [] {
      assert Succeeds(line, |line| - 1);
    }
  }

  /** A member of a lineage 1, 2, …, n stands at its version number. */
  lemma LineagePosition(changes: seq<Change>, pid: string, c: Change)
    requires LinesUp(Lineage(changes, pid)) && c in Lineage(changes, pid)
    ensures 1 <= c.Version() <= |Lineage(changes, pid)| && Lineage(changes, pid)[c.Version() - 1] == c
  {
    var line := Lineage(changes, pid);
    var i :| 0 <= i < |line| && line[i] == c;
    assert Succeeds(line, i);
  }

  /** What the checks establish about the digests a control names: current and
      target are governed members, and a rollback names its target's version, which
      on a lineage 1, 2, …, n is its place. */
  lemma ControlChecks(db: PolicyDb, a: GovernanceAction)
    requires PolicyInv(db) && ControlError(db, a).None?
    ensures a.body.PolicyFreeze? || a.body.PolicyRollback?
    ensures IsMember(db.changes, a.body.policyId, a.body.current) && IsMember(db.changes, a.body.policyId, TargetOf(a))
    ensures var line := Lineage(db.changes, a.body.policyId);
            a.body.PolicyRollback? && LinesUp(line) ==>
              && 1 <= a.body.targetVersion <= |line|
              && line[a.body.targetVersion - 1].Sha() == a.body.target != a.body.current
  {
    var pid := a.body.policyId;
    MemberExactly(db.changes, pid, a.body.current, CurrentNotGoverned);
    if a.body.PolicyRollback? {
      MemberExactly(db.changes, pid, a.body.target, TargetNotGoverned);
      GovernedExactly(db.changes, a.body.target);
      LineageMembers(db.changes, pid);
      if LinesUp(Lineage(db.changes, pid)) {
        LineagePosition(db.changes, pid, Governed(db.changes, a.body.target).value);
      }
    }
  }

  /** An uninterrupted control that takes effect acted on the active digest; a freeze
      keeps it, and a rollback activates exactly the version it names. */
  lemma ControlActsOnLineage(db: PolicyDb, a: GovernanceAction, approvals: seq<ApprovalPayload>,
                             policy: GovernancePolicy,
                             now: real, keys: Keys)
    requires PolicyInv(db) && ControlSpec(db, a, approvals, policy, now, keys).1.None?
    ensures a.body.PolicyFreeze? || a.body.PolicyRollback?
    ensures var u, pid := ControlSpec(db, a, approvals, policy, now, keys).0, a.body.policyId;
            var line := Lineage(db.changes, pid);
            && (pid in db.controls ==> db.controls[pid].active == a.body.current)
            && (a.body.PolicyFreeze? ==>
                  && u.controls == db.controls[pid := Control(a.body.current, true)]
                  && (pid in db.controls ==> !db.controls[pid].frozen)
                  && IsMember(db.changes, pid, a.body.current))
            && (a.body.PolicyRollback? && LinesUp(line) ==>
                  && 1 <= a.body.targetVersion <= |line|
                  && u.controls == db.controls[pid := Control(line[a.body.targetVersion - 1].Sha(), false)]
                  && a.body.target == line[a.body.targetVersion - 1].Sha() != a.body.current)
  {
    ControlChecks(db, a);
  }

  /** Exactly when a control takes effect on uninterrupted tables: a quorum for a freeze
      or a rollback that was not used before, of a governed version of this policy that is
      the active one, if there is one; a freeze of what is not frozen, or a rollback to a
      governed version of this policy with the named number, other than the current one.
      Then it is recorded and the target is active, frozen exactly by a freeze. */
  lemma ControlSucceedsExactly(db: PolicyDb, a: GovernanceAction, approvals: seq<ApprovalPayload>,
                               policy: GovernancePolicy, now: real, keys: Keys)
    requires PolicyInv(db)
    ensures ControlSpec(db, a, approvals, policy, now, keys).1.None? <==>
              && QuorumAccepts(a, approvals, policy, now, keys.approvals)
              && (a.body.PolicyFreeze? || a.body.PolicyRollback?)
              && (forall x :: x in db.actions ==> x.actionId != a.actionId && x.nonce != a.nonce)
              && Holds(db.changes, a.body.policyId, a.body.current)
              && (a.body.policyId in db.controls ==>
                    && db.controls[a.body.policyId].active == a.body.current
                    && (a.body.PolicyFreeze? ==> !db.controls[a.body.policyId].frozen))
              && (a.body.PolicyRollback? ==>
                    && a.body.target != a.body.current
                    && exists c :: c in db.changes && c.signed.payload.policyId == a.body.policyId
                                   && c.signed.payload.sha == a.body.target
                                   && c.signed.payload.version == a.body.targetVersion)
    ensures var (u, error) := ControlSpec(db, a, approvals, policy, now, keys);
            error.None? ==>
              && u.controls == db.controls[a.body.policyId := if a.body.PolicyFreeze? then Control(a.body.current, true)
                                                              else Control(a.body.target, false)]
              && u == db.(actions := db.actions + [a], controls := u.controls, saved := db.approvals)
  {
    ActionsFresh(db.actions, a);
    if a.body.PolicyFreeze? || a.body.PolicyRollback? {
      HoldsExactly(db.changes, a.body.policyId, a.body.current, CurrentNotGoverned);
      if a.body.PolicyRollback? {
        TargetExactly(db.changes, a);
      }
    }
  }

  /** What is wrong with an approved control, by the first thing that is. */
  ghost predicate IsWrong(db: PolicyDb, a: GovernanceAction, error: PolicyError) {
    var unknown := Unused(db.actions, a.actionId);
    var control := unknown && (a.body.PolicyFreeze? || a.body.PolicyRollback?);
    var current := control && Holds(db.changes, a.body.policyId, a.body.current);
    var active := current && (a.body.policyId in db.controls ==>
                                db.controls[a.body.policyId].active == a.body.current);
    match error
    case ActionKnown => !unknown
    case WrongAction => unknown && !control
    case CurrentNotGoverned => control && Nowhere(db.changes, a.body.current)
    case OtherLineage =>
      control && (!Holds(db.changes, a.body.policyId, a.body.current)
                  || (a.body.PolicyRollback? && !Holds(db.changes, a.body.policyId, a.body.target)))
    case StaleActive => current && !active
    case AlreadyFrozen =>
      active && a.body.PolicyFreeze? && a.body.policyId in db.controls && db.controls[a.body.policyId].frozen
    case TargetNotGoverned => active && a.body.PolicyRollback? && Nowhere(db.changes, a.body.target)
    case TargetVersionMismatch =>
      active && a.body.PolicyRollback? && Holds(db.changes, a.body.policyId, a.body.target)
      && NeverAs(db.changes, a.body.target, a.body.targetVersion)
    case TargetIsCurrent => active && a.body.PolicyRollback? && a.body.target == a.body.current
    case Conflict => active && exists x :: x in db.actions && x.nonce == a.nonce
    case _ => false
  }

  /** A refused control without a quorum says so; any other names what is wrong. */
  lemma ControlRefusalNames(db: PolicyDb, a: GovernanceAction, approvals: seq<ApprovalPayload>,
                            policy: GovernancePolicy, now: real, keys: Keys)
    requires PolicyInv(db) && ControlSpec(db, a, approvals, policy, now, keys).1.Some?
    ensures var error := ControlSpec(db, a, approvals, policy, now, keys).1.value;
            if QuorumAccepts(a, approvals, policy, now, keys.approvals) then IsWrong(db, a, error)
            else error == NoQuorum
  {
    if ControlError(db, a).Some? {
      ControlErrorNames(db, a);
    } else {
      ActionsFresh(db.actions, a);
      IdFresh(db.actions, a.actionId);
      MemberRefusalNames(db.changes, a.body.policyId, a.body.current, CurrentNotGoverned);
    }
  }

  lemma ControlErrorNames(db: PolicyDb, a: GovernanceAction)
    requires PolicyInv(db) && ControlError(db, a).Some?
    ensures IsWrong(db, a, ControlError(db, a).value)
  {
    IdFresh(db.actions, a.actionId);
    if ControlCheck(db, a, 0).None? {
      MemberRefusalNames(db.changes, a.body.policyId, a.body.current, CurrentNotGoverned);
      if ControlCheck(db, a, 1).None? && ControlCheck(db, a, 2).None? {
        TargetRefusalNames(db, a);
      }
    }
  }

  lemma TargetRefusalNames(db: PolicyDb, a: GovernanceAction)
    requires PolicyInv(db) && a.body.PolicyRollback? && TargetError(db.changes, a).Some?
    requires Unused(db.actions, a.actionId) && Holds(db.changes, a.body.policyId, a.body.current)
    requires a.body.policyId in db.controls ==> db.controls[a.body.policyId].active == a.body.current
    ensures IsWrong(db, a, TargetError(db.changes, a).value)
  {
    MemberRefusalNames(db.changes, a.body.policyId, a.body.target, TargetNotGoverned);
    VersionRefusalNames(db.changes, a);
  }

  ghost predicate Unused(actions: seq<GovernanceAction>, id: string) {
    forall x :: x in actions ==> x.actionId != id
  }

  ghost predicate NeverAs(changes: seq<Change>, sha: string, version: int) {
    forall c :: c in changes && c.signed.payload.sha == sha ==> c.signed.payload.version != version
  }

  ghost predicate Nowhere(changes: seq<Change>, sha: string) {
    forall c :: c in changes ==> c.signed.payload.sha != sha
  }

  lemma MemberRefusalNames(changes: seq<Change>, pid: string, sha: string, missing: PolicyError)
    requires ChangesDistinct(changes)
    ensures MemberError(changes, pid, sha, missing).None? <==> Holds(changes, pid, sha)
    ensures Governed(changes, sha).None? <==> Nowhere(changes, sha)
  {
    HoldsExactly(changes, pid, sha, missing);
    GovernedExactly(changes, sha);
  }

  lemma VersionRefusalNames(changes: seq<Change>, a: GovernanceAction)
    requires ChangesDistinct(changes) && a.body.PolicyRollback?
    ensures TargetError(changes, a) == Some(TargetVersionMismatch) ==>
              NeverAs(changes, a.body.target, a.body.targetVersion)
  {
    HoldsExactly(changes, a.body.policyId, a.body.target, TargetNotGoverned);
  }

  lemma IdFresh(actions: seq<GovernanceAction>, id: string)
    ensures !ControlIdKnown(actions, id) <==> Unused(actions, id)
  {
    if i :| 0 <= i < |actions| && actions[i].actionId == id {
      assert actions[i] in actions;
    }
  }

  /** The digest is a stored version of this policy. */
  ghost predicate Holds(changes: seq<Change>, pid: string, sha: string) {
    exists c :: c in changes && c.signed.payload.policyId == pid && c.signed.payload.sha == sha
  }

  lemma ActionsFresh(actions: seq<GovernanceAction>, a: GovernanceAction)
    ensures !ControlTaken(actions, a) <==> forall x :: x in actions ==> x.actionId != a.actionId && x.nonce != a.nonce
    ensures ControlIdKnown(actions, a.actionId) ==> ControlTaken(actions, a)
  {
    if i :| 0 <= i < |actions| && (actions[i].actionId == a.actionId || actions[i].nonce == a.nonce) {
      assert actions[i] in actions;
    }
  }

  lemma HoldsExactly(changes: seq<Change>, pid: string, sha: string, missing: PolicyError)
    requires ChangesDistinct(changes)
    ensures MemberError(changes, pid, sha, missing).None? <==> Holds(changes, pid, sha)
    ensures forall c :: c in changes && c.Sha() == sha ==> Governed(changes, sha) == Some(c)
  {
    GovernedExactly(changes, sha);
    forall c | c in changes && c.Sha() == sha ensures Governed(changes, sha) == Some(c) {
      var i :| 0 <= i < |changes| && changes[i] == c;
      var j :| 0 <= j < |changes| && changes[j] == Governed(changes, sha).value;
    }
  }

  lemma TargetExactly(changes: seq<Change>, a: GovernanceAction)
    requires ChangesDistinct(changes) && a.body.PolicyRollback?
    ensures TargetError(changes, a).None? <==>
              && a.body.target != a.body.current
              && exists c :: c in changes && c.signed.payload.policyId == a.body.policyId
                             && c.signed.payload.sha == a.body.target
                             && c.signed.payload.version == a.body.targetVersion
  {
    HoldsExactly(changes, a.body.policyId, a.body.target, TargetNotGoverned);
    GovernedExactly(changes, a.body.target);
  }

  /** The gate passes an engine exactly when its digest, version, source and parent are
      those of a stored change, and its policy is uncontrolled, or not frozen and active on
      that digest. */
  lemma GateMeans(db: PolicyDb, sha: string, version: int, sourceRef: string, parent: Option<string>)
    requires PolicyInv(db)
    ensures GatePasses(db, sha, version, sourceRef, parent) <==>
              exists c :: c in db.changes
                && var v := c.signed.payload;
                   && v.sha == sha && v.version == version && v.sourceRef == sourceRef && v.parent == parent
                   && (v.policyId in db.controls ==> db.controls[v.policyId] == Control(sha, false))
  {
    HoldsExactly(db.changes, "", sha, CurrentNotGoverned);
    GovernedExactly(db.changes, sha);
  }

  /** The gate, exactly: the engine passes with a digest of this policy, for some
      descriptive fields, exactly when that digest is governed and the policy is
      uncontrolled, or controlled, not frozen and active on this digest. So a
      frozen policy passes for no digest, and an unfrozen control for one only. */
  lemma GateExactly(db: PolicyDb, pid: string, sha: string)
    ensures (exists version, sourceRef, parent :: GatePasses(db, sha, version, sourceRef, parent)
              && Governed(db.changes, sha).value.PolicyId() == pid)
            <==>
              && (exists c :: c in Lineage(db.changes, pid) && Governed(db.changes, sha) == Some(c))
              && (pid in db.controls ==> !db.controls[pid].frozen && sha == db.controls[pid].active)
  {
    LineageMembers(db.changes, pid);
    GovernedExactly(db.changes, sha);
    if Governed(db.changes, sha).Some? {
      var v := Governed(db.changes, sha).value.signed.payload;
      assert GatePasses(db, sha, v.version, v.sourceRef, v.parent) <==>
             (v.policyId in db.controls ==> !db.controls[v.policyId].frozen && db.controls[v.policyId].active == sha);
    }
  }

  /** The insert leaves approvals behind without registering anything exactly when
      they are new but the digest is bound to other signed content: the table still
      shows them, uncommitted. */
  lemma InsertLeavesExactly(db: PolicyDb, signed: SignedVersion, a: GovernanceAction, approvals: seq<ApprovalPayload>)
    requires PolicyInv(db) && approvals != []
    ensures var (u, error) := RegisterChange(db, signed, a, approvals);
            && (error.Some? && |u.approvals| > |db.approvals| <==>
                  && ApprovalsUnique(db.approvals + approvals)
                  && signed.payload.sha in db.versions && db.versions[signed.payload.sha] != signed)
            && (error.Some? && |u.approvals| > |db.approvals| ==> u == db.(approvals := db.approvals + approvals))
  {
    InsertedUnique(db.approvals, approvals);
  }

  lemma QuorumNonEmpty(a: GovernanceAction, approvals: seq<ApprovalPayload>, policy: GovernancePolicy, now: real,
                       signed: Signatures)
    requires QuorumAccepts(a, approvals, policy, now, signed)
    ensures approvals != []
  {
  }

  /** What a caller can check beforehand: a refused publication leaves its approvals
      behind exactly when it passes every check up to the insert, its approvals are
      new, and its digest is already bound to other signed content. */
  lemma RefusalLeavesApprovalsExactly(db: PolicyDb, signed: SignedVersion, a: GovernanceAction,
                                      approvals: seq<ApprovalPayload>, policy: GovernancePolicy, key: string,
                                      now: real, keys: Keys)
    requires PolicyInv(db)
    ensures var (u, error) := PublishSpec(db, signed, a, approvals, policy, key, now, keys);
            error.Some? && |u.approvals| > |db.approvals| <==>
              && VersionAuthentic(signed, key, keys)
              && QuorumAccepts(a, approvals, policy, now, keys.approvals)
              && ActionDescribes(a, signed.payload)
              && SuccessionError(db.changes, signed.payload).None?
              && ApprovalsUnique(db.approvals + approvals)
              && signed.payload.sha in db.versions && db.versions[signed.payload.sha] != signed
  {
    if QuorumAccepts(a, approvals, policy, now, keys.approvals) {
      QuorumNonEmpty(a, approvals, policy, now, keys.approvals);
      InsertLeavesExactly(db, signed, a, approvals);
    }
  }

  // ------------------------------------------------------------------- services

  /** The storage connection with the two governed services over it. */
  class PolicyStore {
    var versions: map<string, SignedVersion>
    var changes: seq<Change>
    var controls: map<string, Control>
    var actions: seq<GovernanceAction>
    var approvals: seq<ApprovalPayload>
    var saved: seq<ApprovalPayload>

    ghost function State(): PolicyDb
      reads this
    {
      PolicyDb(versions, changes, controls, actions, approvals, saved)
    }

    constructor ()
      ensures State() == EMPTY_POLICY_DB
    {
      versions, changes, controls, actions, approvals, saved := map[], [], map[], [], [], [];
    }

    method RegisterGovernedChange(signed: SignedVersion, a: GovernanceAction, batch: seq<ApprovalPayload>)
      returns (error: Option<PolicyError>)
      modifies this
      ensures (State(), error) == RegisterChange(old(State()), signed, a, batch)
    {
      var stored, table := StoreApprovals(approvals, batch);
      if !stored {
        approvals := saved;
        return Some(Conflict);
      }
      approvals := table;
      var sha := signed.payload.sha;
      if sha in versions && versions[sha] != signed {
        return Some(DigestBoundElsewhere);
      }
      if Governed(changes, sha).Some? || ActionTaken(changes, a) {
        approvals := saved;
        return Some(Conflict);
      }
      versions := versions[sha := signed];
      changes := changes + [Change(signed, a)];
      saved := approvals;
      return None;
    }

    /** `GovernedPolicyVersionRegistry.publish`. */
    method Publish(signed: SignedVersion, a: GovernanceAction, batch: seq<ApprovalPayload>, policy: GovernancePolicy,
                   key: string, now: real, keys: Keys) returns (error: Option<PolicyError>)
      modifies this
      ensures (State(), error) == PublishSpec(old(State()), signed, a, batch, policy, key, now, keys)
    {
      if !VersionAuthentic(signed, key, keys) {
        return Some(BadVersion);
      }
      var ok := VerifyQuorum(a, batch, policy, now, keys.approvals);
      if !ok {
        return Some(NoQuorum);
      }
      if !a.body.PolicyChange? {
        return Some(WrongAction);
      }
      if !ActionDescribes(a, signed.payload) {
        return Some(ActionMismatch);
      }
      var v := signed.payload;
      if Governed(changes, v.sha).Some? {
        return Some(AlreadyPublished);
      }
      var latest := Latest(changes, v.policyId);
      if latest.None? {
        if v.version != 1 || v.parent.Some? {
          return Some(FirstMustBeOne);
        }
      } else {
        if v.version != latest.value.Version() + 1 {
          return Some(NotMonotone);
        }
        if v.parent != Some(latest.value.Sha()) {
          return Some(WrongParent);
        }
      }
      error := RegisterGovernedChange(signed, a, batch);
    }

    /** The upsert and its action record, committed together. */
    method ApplyPolicyControl(a: GovernanceAction, active: string, frozen: bool) returns (error: Option<PolicyError>)
      requires a.body.PolicyFreeze? || a.body.PolicyRollback?
      requires active == TargetOf(a) && frozen == a.body.PolicyFreeze?
      modifies this
      ensures (State(), error) == StoreControl(old(State()), a)
    {
      if ControlTaken(actions, a) {
        approvals := saved;
        return Some(Conflict);
      }
      actions := actions + [a];
      controls := controls[a.body.policyId := Control(active, frozen)];
      saved := approvals;
      return None;
    }

    /** `GovernedPolicyControlService.apply`. */
    method ApplyControl(a: GovernanceAction, batch: seq<ApprovalPayload>, policy: GovernancePolicy, now: real,
                        keys: Keys)
      returns (error: Option<PolicyError>)
      modifies this
      ensures (State(), error) == ControlSpec(old(State()), a, batch, policy, now, keys)
    {
      var ok := VerifyQuorum(a, batch, policy, now, keys.approvals);
      if !ok {
        return Some(NoQuorum);
      }
      if ControlIdKnown(actions, a.actionId) {
        return Some(ActionKnown);
      }
      if !a.body.PolicyFreeze? && !a.body.PolicyRollback? {
        return Some(WrongAction);
      }
      var pid, current := a.body.policyId, a.body.current;
      var governed := Governed(changes, current);
      if governed.None? {
        return Some(CurrentNotGoverned);
      }
      if governed.value.PolicyId() != pid {
        return Some(OtherLineage);
      }
      assert ControlCheck(State(), a, 0).None? && ControlCheck(State(), a, 1).None?;
      if pid in controls && controls[pid].active != current {
        return Some(StaleActive);
      }
      if a.body.PolicyFreeze? {
        if pid in controls && controls[pid].frozen {
          return Some(AlreadyFrozen);
        }
        error := ApplyPolicyControl(a, current, true);
      } else {
        var target := Governed(changes, a.body.target);
        if target.None? {
          return Some(TargetNotGoverned);
        }
        if target.value.PolicyId() != pid {
          return Some(OtherLineage);
        }
        if target.value.Version() != a.body.targetVersion {
          return Some(TargetVersionMismatch);
        }
        if a.body.target == current {
          return Some(TargetIsCurrent);
        }
        error := ApplyPolicyControl(a, a.body.target, false);
      }
    }

    method RegisterPolicyVersion(signed: SignedVersion)
      modifies this`versions, this`saved
      ensures State() == RegisterVersionSpec(old(State()), signed)
    {
      versions := versions[signed.payload.sha := signed];
      saved := approvals;
    }
  }

  /** The engine's policy artifact: built and registered once, kept until the gate
      refuses it. */
  class GovernedEngine {
    const store: PolicyStore
    const sha: string
    const version: int
    const sourceRef: string
    const parent: Option<string>
    const requireGoverned: bool
    var cached: Option<SignedVersion>

    constructor (store: PolicyStore, sha: string, version: int, sourceRef: string, parent: Option<string>,
                 requireGoverned: bool)
      ensures this.store == store && this.sha == sha && this.version == version && this.sourceRef == sourceRef
      ensures this.parent == parent && this.requireGoverned == requireGoverned && cached == None
    {
      this.store, this.sha, this.version, this.sourceRef := store, sha, version, sourceRef;
      this.parent, this.requireGoverned, cached := parent, requireGoverned, None;
    }

    /** `_assert_governed_policy_control`. */
    method AssertGovernedControl() returns (passes: bool)
      ensures passes <==> GatePasses(store.State(), sha, version, sourceRef, parent)
    {
      var governed := Governed(store.changes, sha);
      if governed.None? {
        return false;
      }
      GovernedExactly(store.changes, sha);
      var v := governed.value.signed.payload;
      if v.sha != sha || v.version != version || v.sourceRef != sourceRef || v.parent != parent {
        return false;
      }
      if v.policyId in store.controls {
        var control := store.controls[v.policyId];
        if control.frozen {
          return false;
        }
        if control.active != sha {
          return false;
        }
      }
      return true;
    }

    function Artifact(key: string, now: real): SignedVersion
    {
      SignedVersion(PolicyVersion(PolicyIdOf(sourceRef), version, sha, sourceRef, parent, now, map[]), key)
    }

    /** `signed_policy_version`: a cached artifact never outlives a refusal, and
        when governance is required an artifact is returned exactly when the gate
        passes, cached or not. */
    method SignedPolicyVersion(key: string, now: real) returns (artifact: Option<SignedVersion>)
      modifies this`cached, store`versions, store`saved
      ensures store.State() == if old(cached).None? then RegisterVersionSpec(old(store.State()), Artifact(key, now))
                               else old(store.State())
      ensures artifact.Some? <==> requireGoverned ==> GatePasses(store.State(), sha, version, sourceRef, parent)
      ensures artifact.Some? ==> artifact.value == old(cached).GetOr(Artifact(key, now))
      ensures old(cached).None? ==>
                && store.versions == old(store.versions)[sha := SignedVersion(PolicyVersion(
                     "verigate-policy:" + sourceRef, version, sha, sourceRef, parent, now, map[]), key)]
                && (artifact.Some? ==> artifact.value == store.versions[sha])
      ensures cached == artifact
    {
      if cached.None? {
        cached := Some(Artifact(key, now));
        store.RegisterPolicyVersion(cached.value);
      }
      if requireGoverned {
        var passes := AssertGovernedControl();
        if !passes {
          cached := None;
          return None;
        }
      }
      return cached;
    }
  }
}
