/** Governed recovery of a suspended authority: the single-governor and the
    quorum reset services (core/governance.py) over the reset and approval tables
    (core/storage.py). */
module AuthorityResets {
  import opened Common
  import opened Models
  import opened Governance
  import opened DynamicAuthority

  /** What the registry reports about the reset's capability: its agent, whether it
      is neither revoked nor expired, and whether a bound identity is active. */
  datatype CapabilityStatus = CapabilityStatus(agentId: string, active: bool, identityActive: bool)

  datatype ResetRequest =
    | ByGovernor(reset: Reset, key: string)
    | ByQuorum(action: GovernanceAction, approvals: seq<ApprovalPayload>, policy: GovernancePolicy)

  /** Signatures are membership: which key signed which reset or approval. */
  datatype Keyring = Keyring(resets: set<(string, Reset)>, approvals: Signatures)

  datatype ResetError =
    | Unverified | CapabilityNotFound | CapabilityOfOtherAgent | CapabilityInactive | IdentityInactive | WrongEpoch
    | NotNewer
    | NotSuspended | BeforeLatestCritical | AlreadyRegistered

  const MAX_RESET_AGE := 2592000.0

  predicate GovernorAccepts(r: Reset, key: string, now: real, keyring: Keyring) {
    && r.resetId != "" && r.scope.agentId != "" && r.scope.capabilityId != "" && r.governorId != ""
    && r.reason != "" && r.nonce != "" && r.epoch >= 1
    && now - MAX_RESET_AGE <= r.issuedAt <= now + 60.0
    && r.governorId == key && (key, r) in keyring.resets
  }

  ghost predicate Authentic(request: ResetRequest, now: real, keyring: Keyring) {
    match request
    case ByGovernor(r, key) => GovernorAccepts(r, key, now, keyring)
    case ByQuorum(action, approvals, policy) =>
      action.body.AuthorityReset? && QuorumAccepts(action, approvals, policy, now, keyring.approvals)
  }

  predicate AboutReset(request: ResetRequest) {
    request.ByQuorum? ==> request.action.body.AuthorityReset?
  }

  /** The row to store; a quorum reset is recorded under a fixed governor name. */
  function ResetFrom(request: ResetRequest): Reset
    requires AboutReset(request)
  {
    match request
    case ByGovernor(r, _) => r
    case ByQuorum(a, _, _) => Reset(a.body.scope, a.actionId, "MULTIPARTY", a.body.epoch, a.reason, a.issuedAt, a.nonce)
  }

  function ApprovalsFrom(request: ResetRequest): seq<ApprovalPayload> {
    match request
    case ByGovernor(_, _) => []
    case ByQuorum(_, approvals, _) => approvals
  }

  function CapabilityError(capability: Option<CapabilityStatus>, r: Reset): Option<ResetError> {
    if capability.None? then Some(CapabilityNotFound)
    else if capability.value.agentId != r.scope.agentId then Some(CapabilityOfOtherAgent)
    else if !capability.value.active then Some(CapabilityInactive)
    else if !capability.value.identityActive then Some(IdentityInactive)
    else None
  }

  function EpochError(resets: seq<Reset>, r: Reset): Option<ResetError> {
    var latest := LatestReset(resets, r.scope);
    if r.epoch != (if latest.None? then 1 else latest.value.epoch + 1) then Some(WrongEpoch)
    else if latest.Some? && r.issuedAt <= latest.value.issuedAt then Some(NotNewer)
    else None
  }

  /** Greatest time of a critical event, zero when there is none. */
  function LatestCritical(events: seq<Event>): Option<real> {
    if events == [] then None
    else
      var before, e := LatestCritical(events[..|events| - 1]), Last(events);
      if !IsCritical(e.eventType) then before
      else if before.None? then Some(e.occurredAt)
      else Some(MaxReal(before.value, e.occurredAt))
  }

  /** Primary key, unique nonce and unique epoch of a scope. */
  predicate ResetClash(a: Reset, b: Reset) {
    a.resetId == b.resetId || a.nonce == b.nonce || (a.scope == b.scope && a.epoch == b.epoch)
  }

  predicate ResetTaken(resets: seq<Reset>, r: Reset) {
    exists i :: 0 <= i < |resets| && ResetClash(resets[i], r)
  }

  /** `register_authority_reset`: approvals and reset together or neither. */
  function RegisterReset(db: Db, r: Reset, approvals: seq<ApprovalPayload>): Option<Db> {
    var stored := InsertApprovals(db.approvals, approvals);
    if stored.None? || ResetTaken(db.resets, r) then None
    else Some(db.(resets := db.resets + [r], approvals := stored.value))
  }

  /** The reset call. The suspended-state check takes a snapshot, so it writes the
      state table even when the reset is refused afterwards. */
  ghost function ResetSpec(db: Db, request: ResetRequest, capability: Option<CapabilityStatus>, verifiedAt: real,
                           now: real, keyring: Keyring): (Db, Result<Snapshot, ResetError>)
  {
    if !Authentic(request, verifiedAt, keyring) then (db, Err(Unverified))
    else
      var r := ResetFrom(request);
      if CapabilityError(capability, r).Some? then (db, Err(CapabilityError(capability, r).value))
      else if EpochError(db.resets, r).Some? then (db, Err(EpochError(db.resets, r).value))
      else RecoverSpec(db, r, ApprovalsFrom(request), now)
  }

  /** The part of the call after the read-only checks. */
  function RecoverSpec(db: Db, r: Reset, approvals: seq<ApprovalPayload>, now: real)
    : (Db, Result<Snapshot, ResetError>)
  {
    var seen := Observe(db, DEFAULT_POLICY, r.scope, now);
    if SnapshotOf(db, DEFAULT_POLICY, r.scope, now).state != Suspended then (seen, Err(NotSuspended))
    else if r.issuedAt <= LatestCritical(EventsOf(db.events, r.scope)).GetOr(0.0) then (seen, Err(BeforeLatestCritical))
    else
      var registered := RegisterReset(seen, r, approvals);
      if registered.None? then (seen, Err(AlreadyRegistered))
      else
        var refreshed := SnapshotOf(registered.value, DEFAULT_POLICY, r.scope, r.issuedAt);
        (Observe(registered.value, DEFAULT_POLICY, r.scope, r.issuedAt), Ok(refreshed))
  }

  // -------------------------------------------------------------- the invariant

  /** Epochs are 1, 2, … in issue order. */
  ghost predicate InEpochOrder(rs: seq<Reset>, i: nat)
    requires i < |rs|
  {
    rs[i].epoch == i + 1 && (i > 0 ==> rs[i - 1].issuedAt < rs[i].issuedAt)
  }

  ghost predicate EpochsInOrder(rs: seq<Reset>) {
    forall i {:trigger InEpochOrder(rs, i)} :: 0 <= i < |rs| ==> InEpochOrder(rs, i)
  }

  ghost predicate ResetsUnique(resets: seq<Reset>) {
    forall i, j :: 0 <= i < j < |resets| ==>
      && resets[i].resetId != resets[j].resetId && resets[i].nonce != resets[j].nonce
      && (resets[i].scope != resets[j].scope || resets[i].epoch != resets[j].epoch)
  }

  ghost predicate ResetInv(db: Db) {
    && Coupled(db)
    && ApprovalsUnique(db.approvals)
    && ResetsUnique(db.resets)
    && forall s :: EpochsInOrder(ResetsOf(db.resets, s))
  }

  /** What a reset call can do to the store. */
  lemma ResetShape(db: Db, request: ResetRequest, capability: Option<CapabilityStatus>, verifiedAt: real, now: real,
                   keyring: Keyring)
    ensures var (u, outcome) := ResetSpec(db, request, capability, verifiedAt, now, keyring);
            && u.events == db.events && u.ledger == db.ledger
            && (outcome.Err? ==> u.resets == db.resets && u.approvals == db.approvals)
            && (outcome.Ok? ==>
                  && Authentic(request, verifiedAt, keyring)
                  && var r := ResetFrom(request);
                     && u.resets == db.resets + [r]
                     && !ResetTaken(db.resets, r)
                     && EpochError(db.resets, r).None?
                     && InsertApprovals(db.approvals, ApprovalsFrom(request)) == Some(u.approvals))
  {
    ResetCases(db, request, capability, verifiedAt, now, keyring);
    if Checked(db, request, capability, verifiedAt, keyring) {
      RecoverShape(db, ResetFrom(request), ApprovalsFrom(request), now);
    }
  }

  ghost predicate Checked(db: Db, request: ResetRequest, capability: Option<CapabilityStatus>, verifiedAt: real,
                          keyring: Keyring)
  {
    && Authentic(request, verifiedAt, keyring)
    && CapabilityError(capability, ResetFrom(request)).None? && EpochError(db.resets, ResetFrom(request)).None?
  }

  lemma ResetCases(db: Db, request: ResetRequest, capability: Option<CapabilityStatus>, verifiedAt: real, now: real,
                   keyring: Keyring)
    ensures var r := ResetSpec(db, request, capability, verifiedAt, now, keyring);
            if Checked(db, request, capability, verifiedAt, keyring)
            then r == RecoverSpec(db, ResetFrom(request), ApprovalsFrom(request), now)
            else r.0 == db && r.1.Err?
  {
  }

  lemma RecoverShape(db: Db, r: Reset, approvals: seq<ApprovalPayload>, now: real)
    ensures var (u, outcome) := RecoverSpec(db, r, approvals, now);
            && u.events == db.events && u.ledger == db.ledger
            && (outcome.Err? ==> u.resets == db.resets && u.approvals == db.approvals)
            && (outcome.Ok? ==>
                  && u.resets == db.resets + [r] && !ResetTaken(db.resets, r)
                  && InsertApprovals(db.approvals, approvals) == Some(u.approvals))
  {
  }

  /** A refused recovery leaves an observed suspension without reset. */
  lemma RefusalKeepsSuspension(db: Db, r: Reset, approvals: seq<ApprovalPayload>, now: real, s: Scope)
    requires Sticky(db, s) && RecoverSpec(db, r, approvals, now).1.Err?
    ensures var u := RecoverSpec(db, r, approvals, now).0;
            s in u.states && u.states[s].state == Suspended
  {
  }

  /** A successful reset writes the state of its own scope only. */
  lemma OtherScopesKept(db: Db, request: ResetRequest, capability: Option<CapabilityStatus>, verifiedAt: real,
                        now: real,
                        keyring: Keyring, s: Scope)
    requires ResetSpec(db, request, capability, verifiedAt, now, keyring).1.Ok?
    requires s in db.states && AboutReset(request) && ResetFrom(request).scope != s
    ensures var u := ResetSpec(db, request, capability, verifiedAt, now, keyring).0;
            s in u.states && u.states[s] == db.states[s]
  {
  }

  lemma EpochsExtend(resets: seq<Reset>, r: Reset, s: Scope)
    requires EpochsInOrder(ResetsOf(resets, s)) && EpochError(resets, r).None?
    ensures EpochsInOrder(ResetsOf(resets + [r], s))
  {
    var rs := ResetsOf(resets, s);
    assert (resets + [r])[..|resets|] == resets;
    if r.scope == s {
      var longer := rs + [r];
      assert ResetsOf(resets + [r], s) == longer;
      if rs != [] {
        assert InEpochOrder(rs, |rs| - 1);
      }
      forall i | 0 <= i < |longer| ensures InEpochOrder(longer, i) {
        if i < |rs| {
          assert InEpochOrder(rs, i);
        }
      }
    } else {
      assert ResetsOf(resets + [r], s) == rs;
    }
  }

  /** Every reset call keeps the invariant: per scope the epochs are exactly
      1, 2, …, n with strictly increasing issue times, and no reset id, reset
      nonce, approval id, approval nonce or signer of an action appears twice. */
  lemma ResetKeepsInv(db: Db, request: ResetRequest, capability: Option<CapabilityStatus>, verifiedAt: real, now: real,
                      keyring: Keyring)
    requires ResetInv(db)
    ensures ResetInv(ResetSpec(db, request, capability, verifiedAt, now, keyring).0)
  {
    ResetShape(db, request, capability, verifiedAt, now, keyring);
    var (u, outcome) := ResetSpec(db, request, capability, verifiedAt, now, keyring);
    CoupledFrame(db, u);
    if outcome.Ok? {
      var r := ResetFrom(request);
      InsertedUnique(db.approvals, ApprovalsFrom(request));
      forall s ensures EpochsInOrder(ResetsOf(u.resets, s)) {
        EpochsExtend(db.resets, r, s);
      }
      assert ResetsUnique(u.resets);
    }
  }

  // ----------------------------------------------------------- what a reset does

  lemma {:induction false} NoCriticalAfter(events: seq<Event>, from: real)
    requires LatestCritical(events).None? || LatestCritical(events).value < from
    ensures CountFrom(events, from, None).critical == 0
  {
    if events != [] {
      NoCriticalAfter(events[..|events| - 1], from);
    }
  }

  /** Exactly when a snapshot is suspended: the scope stands on an observed
      suspension that no reset has lifted, or enough critical outcomes lie inside
      the counted history. After a reset only the latter is left, so a critical
      outcome that leaves the window ends the suspension. */
  lemma SuspendedExactly(db: Db, p: AuthorityPolicy, s: Scope, now: real)
    ensures var snapshot := SnapshotOf(db, p, s, now);
            snapshot.state == Suspended <==> Sticky(db, s) || snapshot.counters.critical >= p.suspensionCritical
  {
  }

  /** A successful reset was needed and works: the scope was suspended, and it is
      not suspended afterwards. */
  lemma ResetLeavesSuspension(db: Db, request: ResetRequest, capability: Option<CapabilityStatus>, verifiedAt: real,
                              now: real, keyring: Keyring)
    requires ResetSpec(db, request, capability, verifiedAt, now, keyring).1.Ok?
    ensures AboutReset(request)
    ensures var (u, outcome) := ResetSpec(db, request, capability, verifiedAt, now, keyring);
            var s := ResetFrom(request).scope;
            && SnapshotOf(db, DEFAULT_POLICY, s, now).state == Suspended
            && s in u.states && u.states[s] == outcome.value
            && outcome.value.state != Suspended
            && outcome.value.counters.critical == 0
            && outcome.value.historyStart == ResetFrom(request).issuedAt
  {
    var r := ResetFrom(request);
    var seen := Observe(db, DEFAULT_POLICY, r.scope, now);
    var v := RegisterReset(seen, r, ApprovalsFrom(request)).value;
    LatestOfAppended(db.resets, r);
    NoCriticalAfter(EventsOf(db.events, r.scope), r.issuedAt);
    SuspendedExactly(v, DEFAULT_POLICY, r.scope, r.issuedAt);
  }

  /** Exactly when a reset goes through: it is authentic, its capability and bound
      identity are active, its epoch is one more than the number of resets of the
      scope, it is issued after all of them and after every critical outcome, the
      scope is suspended, and neither reset nor approvals were used before. */
  lemma ResetAppliesExactly(db: Db, request: ResetRequest, capability: Option<CapabilityStatus>, verifiedAt: real,
                            now: real, keyring: Keyring)
    requires ResetInv(db) && Authentic(request, verifiedAt, keyring)
    ensures var r := ResetFrom(request);
            var rs := ResetsOf(db.resets, r.scope);
            ResetSpec(db, request, capability, verifiedAt, now, keyring).1.Ok? <==>
              && capability == Some(CapabilityStatus(r.scope.agentId, true, true))
              && r.epoch == |rs| + 1 && (rs != [] ==> r.issuedAt > Last(rs).issuedAt)
              && SnapshotOf(db, DEFAULT_POLICY, r.scope, now).state == Suspended
              && r.issuedAt > LatestCritical(EventsOf(db.events, r.scope)).GetOr(0.0)
              && !ResetTaken(db.resets, r)
              && ApprovalsUnique(db.approvals + ApprovalsFrom(request))
  {
    var r := ResetFrom(request);
    EpochExactly(db.resets, r);
    RecoversExactly(db, r, ApprovalsFrom(request), now);
    assert CapabilityError(capability, r).None? <==> capability == Some(CapabilityStatus(r.scope.agentId, true, true));
  }

  lemma EpochExactly(resets: seq<Reset>, r: Reset)
    requires EpochsInOrder(ResetsOf(resets, r.scope))
    ensures var rs := ResetsOf(resets, r.scope);
            EpochError(resets, r).None? <==> r.epoch == |rs| + 1 && (rs != [] ==> r.issuedAt > Last(rs).issuedAt)
  {
    var rs := ResetsOf(resets, r.scope);
    if rs != [] {
      assert InEpochOrder(rs, |rs| - 1);
    }
  }

  lemma RecoversExactly(db: Db, r: Reset, approvals: seq<ApprovalPayload>, now: real)
    requires ApprovalsUnique(db.approvals)
    ensures RecoverSpec(db, r, approvals, now).1.Ok? <==>
              && SnapshotOf(db, DEFAULT_POLICY, r.scope, now).state == Suspended
              && r.issuedAt > LatestCritical(EventsOf(db.events, r.scope)).GetOr(0.0)
              && !ResetTaken(db.resets, r) && ApprovalsUnique(db.approvals + approvals)
  {
    InsertedUnique(db.approvals, approvals);
  }

  /** A request to trust at this time: a complete reset that its governor signed with
      the given key and that is at most thirty days old and at most a minute ahead, or a
      quorum for a reset. */
  ghost predicate Trusted(request: ResetRequest, now: real, keyring: Keyring) {
    match request
    case ByGovernor(r, key) =>
      && "" !in [r.resetId, r.scope.agentId, r.scope.capabilityId, r.governorId, r.reason, r.nonce] && r.epoch >= 1
      && now - 2592000.0 <= r.issuedAt <= now + 60.0
      && key == r.governorId && (r.governorId, r) in keyring.resets
    case ByQuorum(action, approvals, policy) =>
      action.body.AuthorityReset? && QuorumAccepts(action, approvals, policy, now, keyring.approvals)
  }

  lemma TrustedExactly(request: ResetRequest, now: real, keyring: Keyring)
    ensures Authentic(request, now, keyring) <==> Trusted(request, now, keyring)
  {
    if request.ByGovernor? {
      var r := request.reset;
      var fields := [r.resetId, r.scope.agentId, r.scope.capabilityId, r.governorId, r.reason, r.nonce];
      assert "" !in fields ==> fields[0] != "" && fields[1] != "" && fields[2] != "";
      assert "" !in fields ==> fields[3] != "" && fields[4] != "" && fields[5] != "";
    }
  }

  /** Where a table holds a scope's resets. */
  ghost function ResetsAt(resets: seq<Reset>, s: Scope): set<int> {
    set i | 0 <= i < |resets| && resets[i].scope == s
  }

  lemma {:induction false} ResetsCount(resets: seq<Reset>, s: Scope)
    ensures |ResetsOf(resets, s)| == |ResetsAt(resets, s)|
  {
    if resets != [] {
      var n := |resets| - 1;
      ResetsCount(resets[..n], s);
      OnePlaceMore(ResetsAt(resets[..n], s), ResetsAt(resets, s), n, resets[n].scope == s);
    }
  }

  lemma {:induction false} ResetsOfMembers(resets: seq<Reset>, s: Scope)
    ensures forall r :: r in ResetsOf(resets, s) <==> r in resets && r.scope == s
  {
    if resets != [] {
      ResetsOfMembers(resets[..|resets| - 1], s);
      assert resets == resets[..|resets| - 1] + [Last(resets)];
    }
  }

  /** When a reset goes through, straight from the tables: a trusted request that is
      applicable. */
  lemma AppliesExactly(db: Db, request: ResetRequest, capability: Option<CapabilityStatus>, verifiedAt: real, now: real,
                       keyring: Keyring)
    requires ResetInv(db)
    ensures ResetSpec(db, request, capability, verifiedAt, now, keyring).1.Ok? <==>
              && Trusted(request, verifiedAt, keyring)
              && Applicable(db, ResetFrom(request), ApprovalsFrom(request), capability, now)
  {
    TrustedExactly(request, verifiedAt, keyring);
    if Authentic(request, verifiedAt, keyring) {
      ResetAppliesExactly(db, request, capability, verifiedAt, now, keyring);
      ApplicableExactly(db, ResetFrom(request), ApprovalsFrom(request), capability, now);
    }
  }

  /** What a refused reset names is wrong. */
  lemma ResetRefusalNames(db: Db, request: ResetRequest, capability: Option<CapabilityStatus>, verifiedAt: real,
                          now: real, keyring: Keyring)
    requires ResetInv(db) && ResetSpec(db, request, capability, verifiedAt, now, keyring).1.Err?
    ensures var error := ResetSpec(db, request, capability, verifiedAt, now, keyring).1.error;
            if Trusted(request, verifiedAt, keyring)
            then IsWrong(db, ResetFrom(request), ApprovalsFrom(request), capability, now, error)
            else error == Unverified
  {
    TrustedExactly(request, verifiedAt, keyring);
    ResetCases(db, request, capability, verifiedAt, now, keyring);
    if Authentic(request, verifiedAt, keyring) {
      EpochRefusalNames(db, ResetFrom(request));
      if Checked(db, request, capability, verifiedAt, keyring) {
        RecoveryRefusalNames(db, ResetFrom(request), ApprovalsFrom(request), capability, now);
      }
    }
  }

  lemma EpochRefusalNames(db: Db, r: Reset)
    requires ResetInv(db)
    ensures EpochError(db.resets, r) == Some(WrongEpoch) ==> r.epoch != |ResetsAt(db.resets, r.scope)| + 1
    ensures EpochError(db.resets, r) == Some(NotNewer) ==>
              exists x :: x in db.resets && x.scope == r.scope && r.issuedAt <= x.issuedAt
  {
    var rs := ResetsOf(db.resets, r.scope);
    ResetsCount(db.resets, r.scope);
    ResetsOfMembers(db.resets, r.scope);
    if rs != [] {
      assert InEpochOrder(rs, |rs| - 1) && Last(rs) in rs;
    }
  }

  lemma RecoveryRefusalNames(db: Db, r: Reset, approvals: seq<ApprovalPayload>, capability: Option<CapabilityStatus>,
                             now: real)
    requires ResetInv(db) && RecoverSpec(db, r, approvals, now).1.Err?
    ensures IsWrong(db, r, approvals, capability, now, RecoverSpec(db, r, approvals, now).1.error)
  {
    InsertedUnique(db.approvals, approvals);
    if RecoverSpec(db, r, approvals, now).1.error == BeforeLatestCritical {
      LatestCriticalBounds(EventsOf(db.events, r.scope), r.issuedAt);
      LatestCriticalExists(EventsOf(db.events, r.scope));
      EventsOfMembers(db.events, r.scope);
    }
  }

  ghost predicate IsWrong(db: Db, r: Reset, approvals: seq<ApprovalPayload>, capability: Option<CapabilityStatus>,
                          now: real, error: ResetError)
  {
    match error
    case CapabilityNotFound => capability == None
    case CapabilityOfOtherAgent => capability.Some? && capability.value.agentId != r.scope.agentId
    case CapabilityInactive => capability.Some? && !capability.value.active
    case IdentityInactive => capability.Some? && capability.value.active && !capability.value.identityActive
    case WrongEpoch => r.epoch != |ResetsAt(db.resets, r.scope)| + 1
    case NotNewer => exists x :: x in db.resets && x.scope == r.scope && r.issuedAt <= x.issuedAt
    case NotSuspended => SnapshotOf(db, DEFAULT_POLICY, r.scope, now).state != Suspended
    case BeforeLatestCritical =>
      if exists e :: e in db.events && e.scope == r.scope && IsCritical(e.eventType)
      then exists e :: e in db.events && e.scope == r.scope && IsCritical(e.eventType) && r.issuedAt <= e.occurredAt
      else r.issuedAt <= 0.0
    case AlreadyRegistered => ResetTaken(db.resets, r) || !ApprovalsUnique(db.approvals + approvals)
    case Unverified => false
  }

  /** What an applied reset leaves: itself, its approvals, the scope's snapshot at its
      issue time, and nothing else. */
  lemma AppliedLeaves(db: Db, request: ResetRequest, capability: Option<CapabilityStatus>, verifiedAt: real, now: real,
                      keyring: Keyring)
    requires ResetInv(db) && ResetSpec(db, request, capability, verifiedAt, now, keyring).1.Ok?
    ensures var (u, outcome) := ResetSpec(db, request, capability, verifiedAt, now, keyring);
            && AboutReset(request)
            && var r := ResetFrom(request);
               && u.events == db.events && u.ledger == db.ledger && u.resets == db.resets + [r]
               && u.approvals == db.approvals + ApprovalsFrom(request)
               && u.states == db.states[r.scope := outcome.value]
               && outcome.value == SnapshotOf(u, DEFAULT_POLICY, r.scope, r.issuedAt)
  {
    ResetCases(db, request, capability, verifiedAt, now, keyring);
    RecoveryLeaves(db, ResetFrom(request), ApprovalsFrom(request), now);
  }

  lemma RecoveryLeaves(db: Db, r: Reset, approvals: seq<ApprovalPayload>, now: real)
    requires ApprovalsUnique(db.approvals) && RecoverSpec(db, r, approvals, now).1.Ok?
    ensures var (u, outcome) := RecoverSpec(db, r, approvals, now);
            && u.events == db.events && u.ledger == db.ledger && u.resets == db.resets + [r]
            && u.approvals == db.approvals + approvals && u.states == db.states[r.scope := outcome.value]
            && outcome.value == SnapshotOf(u, DEFAULT_POLICY, r.scope, r.issuedAt)
  {
    InsertedUnique(db.approvals, approvals);
    var seen := Observe(db, DEFAULT_POLICY, r.scope, now);
    var registered := RegisterReset(seen, r, approvals).value;
    var u := RecoverSpec(db, r, approvals, now).0;
    assert !Sticky(registered, r.scope) && !Sticky(u, r.scope) by {
      LatestOfAppended(db.resets, r);
    }
  }

  /** An active capability of the agent with an active identity, a suspended scope, the
      next epoch, an issue time after every reset and every critical outcome of the scope,
      or after zero when there is none, and new ids, nonces and approvals. */
  ghost predicate Applicable(db: Db, r: Reset, approvals: seq<ApprovalPayload>, capability: Option<CapabilityStatus>,
                             now: real)
  {
    && capability == Some(CapabilityStatus(r.scope.agentId, true, true))
    && SnapshotOf(db, DEFAULT_POLICY, r.scope, now).state == Suspended
    && r.epoch == |ResetsAt(db.resets, r.scope)| + 1
    && (forall x :: x in db.resets && x.scope == r.scope ==> x.issuedAt < r.issuedAt)
    && (forall e :: e in db.events && e.scope == r.scope ==>
          e.eventType == TamperDetected || e.eventType == PolicyViolation ==> e.occurredAt < r.issuedAt)
    && ((forall e :: e in db.events && e.scope == r.scope ==>
           e.eventType != TamperDetected && e.eventType != PolicyViolation) ==> r.issuedAt > 0.0)
    && (forall x :: x in db.resets ==> x.resetId != r.resetId && x.nonce != r.nonce)
    && ApprovalsUnique(db.approvals + approvals)
  }

  /** There is a greatest time exactly when there is a critical outcome. */
  lemma {:induction false} LatestCriticalExists(events: seq<Event>)
    ensures LatestCritical(events).Some? <==> exists e :: e in events && IsCritical(e.eventType)
  {
    if events != [] {
      LatestCriticalExists(events[..|events| - 1]);
      assert events == events[..|events| - 1] + [Last(events)];
      assert Last(events) in events;
    }
  }

  /** The bound on critical outcomes is a bound on every one of them. */
  lemma {:induction false} LatestCriticalBounds(events: seq<Event>, t: real)
    ensures (LatestCritical(events).None? || LatestCritical(events).value < t) <==>
              forall e :: e in events && IsCritical(e.eventType) ==> e.occurredAt < t
  {
    if events != [] {
      LatestCriticalBounds(events[..|events| - 1], t);
      assert events == events[..|events| - 1] + [Last(events)];
      assert Last(events) in events;
    }
  }

  lemma {:induction false} EventsOfMembers(events: seq<Event>, s: Scope)
    ensures forall e :: e in EventsOf(events, s) <==> e in events && e.scope == s
  {
    if events != [] {
      EventsOfMembers(events[..|events| - 1], s);
      assert events == events[..|events| - 1] + [Last(events)];
    }
  }

  /** On a scope's resets in epoch order, later than the last is later than all, and the
      next epoch is new. */
  lemma NextIsNew(db: Db, r: Reset)
    requires ResetInv(db)
    ensures var rs := ResetsOf(db.resets, r.scope);
            && ((rs != [] ==> r.issuedAt > Last(rs).issuedAt) <==>
                  forall x :: x in db.resets && x.scope == r.scope ==> x.issuedAt < r.issuedAt)
            && (r.epoch == |rs| + 1 ==> forall x :: x in db.resets && x.scope == r.scope ==> x.epoch != r.epoch)
  {
    var rs := ResetsOf(db.resets, r.scope);
    ResetsOfMembers(db.resets, r.scope);
    if rs != [] {
      assert Last(rs) in rs && InEpochOrder(rs, |rs| - 1);
    }
    forall x | x in rs ensures x.issuedAt <= Last(rs).issuedAt && x.epoch <= |rs| {
      var i :| 0 <= i < |rs| && rs[i] == x;
      assert InEpochOrder(rs, i);
      LatestIsGreatest(rs, i);
    }
  }

  lemma ApplicableExactly(db: Db, r: Reset, approvals: seq<ApprovalPayload>, capability: Option<CapabilityStatus>,
                          now: real)
    requires ResetInv(db)
    ensures Applicable(db, r, approvals, capability, now) <==>
              var rs := ResetsOf(db.resets, r.scope);
              && capability == Some(CapabilityStatus(r.scope.agentId, true, true))
              && r.epoch == |rs| + 1 && (rs != [] ==> r.issuedAt > Last(rs).issuedAt)
              && SnapshotOf(db, DEFAULT_POLICY, r.scope, now).state == Suspended
              && r.issuedAt > LatestCritical(EventsOf(db.events, r.scope)).GetOr(0.0)
              && !ResetTaken(db.resets, r) && ApprovalsUnique(db.approvals + approvals)
  {
    NextIsNew(db, r);
    LatestCriticalBounds(EventsOf(db.events, r.scope), r.issuedAt);
    LatestCriticalExists(EventsOf(db.events, r.scope));
    EventsOfMembers(db.events, r.scope);
    ResetsCount(db.resets, r.scope);
  }

  lemma LatestOfAppended(resets: seq<Reset>, r: Reset)
    ensures LatestReset(resets + [r], r.scope) == Some(r)
  {
    assert (resets + [r])[..|resets|] == resets;
  }

  /** The latest reset is the one with the greatest epoch and the latest issue
      time of its scope. */
  lemma {:induction false} LatestIsGreatest(rs: seq<Reset>, i: nat)
    requires EpochsInOrder(rs) && i < |rs|
    ensures rs[i].epoch <= Last(rs).epoch && rs[i].issuedAt <= Last(rs).issuedAt
    decreases |rs| - i
  {
    assert InEpochOrder(rs, i);
    if i + 1 < |rs| {
      assert InEpochOrder(rs, i + 1);
      LatestIsGreatest(rs, i + 1);
    }
  }

  lemma {:induction false} CountIgnoresEarlier(events: seq<Event>, start: real, bound: real)
    requires bound <= start
    ensures CountFrom(events, start, None) == CountFrom(Since(events, bound), start, None)
  {
    if events != [] {
      CountIgnoresEarlier(events[..|events| - 1], start, bound);
      var rest := Since(events[..|events| - 1], bound);
      assert (rest + [Last(events)])[..|rest|] == rest && rest + [] == rest;
    }
  }

  /** The events at or after `bound`. */
  function Since(events: seq<Event>, bound: real): seq<Event> {
    if events == [] then []
    else Since(events[..|events| - 1], bound) + if Last(events).occurredAt >= bound then [Last(events)] else []
  }

  /** Once a reset is registered, every snapshot of its scope, under any policy and
      at any time, counts exactly as if the events before the reset did not
      exist, and an earlier suspension no longer sticks. */
  lemma NothingBeforeResetCounts(db: Db, r: Reset, p: AuthorityPolicy, now: real)
    requires ResetInv(db) && r in db.resets
    ensures var snapshot := SnapshotOf(db, p, r.scope, now);
            && snapshot.historyStart >= r.issuedAt
            && snapshot.counters
               == CountFrom(Since(EventsOf(db.events, r.scope), r.issuedAt), snapshot.historyStart, None)
            && !Sticky(db, r.scope)
  {
    var rs := ResetsOf(db.resets, r.scope);
    ResetsOfMembers(db.resets, r.scope);
    var i :| 0 <= i < |rs| && rs[i] == r;
    LatestIsGreatest(rs, i);
    CountIgnoresEarlier(EventsOf(db.events, r.scope), HistoryStart(db, p, r.scope, now), r.issuedAt);
  }

  // -------------------------------------------------------------------- the service

  class AuthorityGovernanceService {
    const store: DynamicAuthorityService

    constructor (store: DynamicAuthorityService)
      ensures this.store == store
    {
      this.store := store;
    }

    method Verify(request: ResetRequest, now: real, keyring: Keyring) returns (ok: bool)
      ensures ok <==> Authentic(request, now, keyring)
    {
      match request {
        case ByGovernor(r, key) =>
          ok := GovernorAccepts(r, key, now, keyring);
        case ByQuorum(action, approvals, policy) =>
          ok := VerifyQuorum(action, approvals, policy, now, keyring.approvals);
          ok := ok && action.body.AuthorityReset?;
      }
    }

    method LatestCriticalTime(scope: Scope) returns (t: real)
      ensures t == LatestCritical(EventsOf(store.events, scope)).GetOr(0.0)
    {
      var mine := EventsOf(store.events, scope);
      var latest := None;
      for k := 0 to |mine|
        invariant latest == LatestCritical(mine[..k])
      {
        assert mine[..k + 1][..k] == mine[..k];
        if IsCritical(mine[k].eventType) {
          latest := if latest.None? then Some(mine[k].occurredAt) else Some(MaxReal(latest.value, mine[k].occurredAt));
        }
      }
      assert mine[..|mine|] == mine;
      t := latest.GetOr(0.0);
    }

    /** Approvals go in one by one; a conflict rolls everything back. */
    method Register(r: Reset, approvals: seq<ApprovalPayload>) returns (ok: bool)
      modifies store`resets, store`approvals
      ensures var registered := RegisterReset(old(store.State()), r, approvals);
              (ok <==> registered.Some?) && store.State() == registered.GetOr(old(store.State()))
    {
      var stored, table := StoreApprovals(store.approvals, approvals);
      if !stored || ResetTaken(store.resets, r) {
        return false;
      }
      store.approvals := table;
      store.resets := store.resets + [r];
      ok := true;
    }

    /** The read-only checks before the suspended-state snapshot. */
    method Check(r: Reset, capability: Option<CapabilityStatus>) returns (error: Option<ResetError>)
      ensures error == if CapabilityError(capability, r).Some? then CapabilityError(capability, r)
                       else EpochError(store.resets, r)
    {
      if capability.None? {
        return Some(CapabilityNotFound);
      }
      if capability.value.agentId != r.scope.agentId {
        return Some(CapabilityOfOtherAgent);
      }
      if !capability.value.active {
        return Some(CapabilityInactive);
      }
      if !capability.value.identityActive {
        return Some(IdentityInactive);
      }
      var latest := LatestReset(store.resets, r.scope);
      var expected := if latest.None? then 1 else latest.value.epoch + 1;
      if r.epoch != expected {
        return Some(WrongEpoch);
      }
      if latest.Some? && r.issuedAt <= latest.value.issuedAt {
        return Some(NotNewer);
      }
      return None;
    }

    method ApplyReset(request: ResetRequest, capability: Option<CapabilityStatus>, verifiedAt: real, now: real,
                 keyring: Keyring) returns (outcome: Result<Snapshot, ResetError>)
      modifies store`states, store`resets, store`approvals
      ensures (store.State(), outcome) == ResetSpec(old(store.State()), request, capability, verifiedAt, now, keyring)
      ensures ResetInv(old(store.State())) ==>
                (outcome.Ok? <==>
                   && Trusted(request, verifiedAt, keyring)
                   && Applicable(old(store.State()), ResetFrom(request), ApprovalsFrom(request), capability, now))
    {
      ghost var before := store.State();
      if ResetInv(before) {
        AppliesExactly(before, request, capability, verifiedAt, now, keyring);
      }
      var ok := Verify(request, verifiedAt, keyring);
      if !ok {
        return Err(Unverified);
      }
      var r := ResetFrom(request);
      var error := Check(r, capability);
      if error.Some? {
        return Err(error.value);
      }
      var snapshot := store.TakeSnapshot(DEFAULT_POLICY, r.scope, now);
      if snapshot.state != Suspended {
        return Err(NotSuspended);
      }
      var latestCritical := LatestCriticalTime(r.scope);
      if r.issuedAt <= latestCritical {
        return Err(BeforeLatestCritical);
      }
      var registered := Register(r, ApprovalsFrom(request));
      if !registered {
        return Err(AlreadyRegistered);
      }
      var refreshed := store.TakeSnapshot(DEFAULT_POLICY, r.scope, r.issuedAt);
      return Ok(refreshed);
    }
  }
}
