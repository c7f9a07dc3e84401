/** Governance policies, approvals and the quorum check (core/governance.py). */
module Governance {
  import opened Common

  /** A governor's id is the fingerprint of its public key; the fingerprint is
      modelled as the key itself. */
  datatype Member = Member(governorId: string, role: string, publicKey: string)

  datatype GovernancePolicy = GovernancePolicy(
    policyId: string,
    version: int,
    threshold: int,
    members: seq<Member>,
    requiredRoles: seq<(string, int)>,
    maxLifetime: int,
    allowedActions: seq<string>)

  datatype Scope = Scope(agentId: string, capabilityId: string)

  /** What an action does; its digest, like every digest here, is the value. */
  datatype ActionBody =
    | AuthorityReset(scope: Scope, epoch: int)
    | PolicyChange(policyId: string, policySha: string, version: int, sourceRef: string, parent: Option<string>)
    | PolicyFreeze(policyId: string, current: string)
    | PolicyRollback(policyId: string, current: string, target: string, targetVersion: int)

  function ActionName(b: ActionBody): string {
    match b
    case AuthorityReset(_, _) => "AUTHORITY_RESET"
    case PolicyChange(_, _, _, _, _) => "POLICY_CHANGE"
    case PolicyFreeze(_, _) => "POLICY_FREEZE"
    case PolicyRollback(_, _, _, _) => "POLICY_ROLLBACK"
  }

  datatype GovernanceAction = GovernanceAction(
    actionId: string,
    reason: string,
    nonce: string,
    governancePolicy: GovernancePolicy,
    issuedAt: real,
    expiresAt: real,
    body: ActionBody)

  datatype ApprovalPayload = ApprovalPayload(
    action: GovernanceAction,
    governorId: string,
    role: string,
    approvalId: string,
    issuedAt: real,
    expiresAt: real,
    nonce: string)

  /** A signature is membership in the set of payloads each key has signed. */
  type Signatures = set<(string, ApprovalPayload)>

  // ------------------------------------------------------------ policy validity

  function MemberIds(members: seq<Member>): (r: seq<string>)
    ensures |r| == |members|
  {
    seq(|members|, i requires 0 <= i < |members| => members[i].governorId)
  }

  function RoleMembers(members: seq<Member>, role: string): nat {
    if members == [] then 0
    else RoleMembers(members[..|members| - 1], role) + if Last(members).role == role then 1 else 0
  }

  ghost predicate ValidPolicy(p: GovernancePolicy) {
    && p.version >= 1 && 1 <= p.threshold <= |p.members| && p.maxLifetime > 0
    && (forall m :: m in p.members ==> m.governorId != "" && m.role != "" && m.publicKey == m.governorId)
    && Distinct(MemberIds(p.members))
    && (forall r :: r in p.requiredRoles ==> r.0 != "" && 1 <= r.1 <= RoleMembers(p.members, r.0))
    && (forall i, j :: 0 <= i < j < |p.requiredRoles| ==> p.requiredRoles[i].0 != p.requiredRoles[j].0)
  }

  /** `GovernancePolicy.validate`, with its seen-id, seen-key and seen-role sets. */
  method ValidatePolicy(p: GovernancePolicy) returns (valid: bool)
    ensures valid <==> ValidPolicy(p)
  {
    if p.version < 1 || p.threshold < 1 || p.threshold > |p.members| || p.maxLifetime <= 0 {
      return false;
    }
    var members := MembersAreValid(p.members);
    if !members {
      return false;
    }
    valid := RolesAreValid(p.requiredRoles, p.members);
  }

  method MembersAreValid(members: seq<Member>) returns (valid: bool)
    ensures valid <==>
              && (forall m :: m in members ==> m.governorId != "" && m.role != "" && m.publicKey == m.governorId)
              && Distinct(MemberIds(members))
  {
    var ids: set<string> := {};
    var keys: set<string> := {};
    for k := 0 to |members|
      invariant forall x :: x in ids <==> x in MemberIds(members)[..k]
      invariant keys == ids
      invariant forall i :: 0 <= i < k ==>
                  members[i].governorId != "" && members[i].role != "" && members[i].publicKey == members[i].governorId
      invariant forall i, j :: 0 <= i < j < k ==> MemberIds(members)[i] != MemberIds(members)[j]
    {
      var m := members[k];
      assert MemberIds(members)[k] == m.governorId && m in members;
      if m.governorId == "" || m.role == "" {
        return false;
      }
      if m.governorId in ids {
        return false;
      }
      ids := ids + {m.governorId};
      if m.publicKey != m.governorId || m.publicKey in keys {
        return false;
      }
      keys := keys + {m.publicKey};
    }
    return true;
  }

  method RolesAreValid(roles: seq<(string, int)>, members: seq<Member>) returns (valid: bool)
    ensures valid <==>
              && (forall r :: r in roles ==> r.0 != "" && 1 <= r.1 <= RoleMembers(members, r.0))
              && (forall i, j :: 0 <= i < j < |roles| ==> roles[i].0 != roles[j].0)
  {
    var seen: set<string> := {};
    for k := 0 to |roles|
      invariant forall x :: x in seen <==> exists i :: 0 <= i < k && roles[i].0 == x
      invariant forall i :: 0 <= i < k ==> roles[i].0 != "" && 1 <= roles[i].1 <= RoleMembers(members, roles[i].0)
      invariant forall i, j :: 0 <= i < j < k ==> roles[i].0 != roles[j].0
    {
      var r := roles[k];
      assert r in roles;
      if r.0 == "" || r.1 < 1 || r.0 in seen || r.1 > RoleMembers(members, r.0) {
        return false;
      }
      seen := seen + {r.0};
    }
    return true;
  }

  // --------------------------------------------------------------------- quorum

  function MemberFor(members: seq<Member>, governor: string): (r: Option<Member>)
    ensures r.Some? ==> r.value in members && r.value.governorId == governor
    ensures r.None? ==> forall m :: m in members ==> m.governorId != governor
  {
    if members == [] then None
    else if members[0].governorId == governor then Some(members[0])
    else MemberFor(members[1..], governor)
  }

  predicate ApprovalValid(a: ApprovalPayload, p: GovernancePolicy, now: real, signed: Signatures) {
    && a.governorId != "" && a.role != "" && a.approvalId != "" && a.nonce != ""
    && a.issuedAt <= now + 60.0
    && a.expiresAt > now
    && a.expiresAt > a.issuedAt
    && a.expiresAt - a.issuedAt <= p.maxLifetime as real
    && MemberFor(p.members, a.governorId).Some?
    && MemberFor(p.members, a.governorId).value.role == a.role
    && (MemberFor(p.members, a.governorId).value.publicKey, a) in signed
  }

  predicate ActionValid(action: GovernanceAction, p: GovernancePolicy, now: real) {
    && action.actionId != "" && action.reason != "" && action.nonce != ""
    && action.governancePolicy == p
    && ActionName(action.body) in p.allowedActions
    && action.issuedAt <= now + 60.0
    && action.expiresAt > now
    && action.expiresAt > action.issuedAt
    && action.expiresAt - action.issuedAt <= p.maxLifetime as real
    && (action.body.AuthorityReset? ==>
          action.body.epoch >= 1 && action.body.scope.agentId != "" && action.body.scope.capabilityId != "")
  }

  function RoleCount(approvals: seq<ApprovalPayload>, role: string): nat {
    if approvals == [] then 0
    else RoleCount(approvals[..|approvals| - 1], role) + if Last(approvals).role == role then 1 else 0
  }

  /** The quorum, stated: valid distinct signers of this exact action with
      distinct nonces, enough of them, and every role minimum met. */
  ghost predicate QuorumAccepts(action: GovernanceAction, approvals: seq<ApprovalPayload>, p: GovernancePolicy,
                                now: real, signed: Signatures)
  {
    && ValidPolicy(p)
    && ActionValid(action, p, now)
    && AllApprove(action, approvals, p, now, signed)
    && |approvals| >= p.threshold
    && (forall r :: r in p.requiredRoles ==> RoleCount(approvals, r.0) >= r.1)
  }

  ghost predicate AllApprove(action: GovernanceAction, approvals: seq<ApprovalPayload>, p: GovernancePolicy,
                             now: real, signed: Signatures)
  {
    EachApproves(action, approvals, p, now, signed) && DifferentSigners(approvals)
  }

  ghost predicate EachApproves(action: GovernanceAction, approvals: seq<ApprovalPayload>, p: GovernancePolicy,
                               now: real, signed: Signatures)
  {
    forall i :: 0 <= i < |approvals| ==> Approves(approvals[i], action, p, now, signed)
  }

  predicate Approves(a: ApprovalPayload, action: GovernanceAction, p: GovernancePolicy, now: real, signed: Signatures) {
    a.action == action && ApprovalValid(a, p, now, signed)
  }

  ghost predicate DifferentSigners(approvals: seq<ApprovalPayload>) {
    forall i, j :: 0 <= i < j < |approvals| ==>
      approvals[i].governorId != approvals[j].governorId && approvals[i].nonce != approvals[j].nonce
  }

  function Tally(counts: map<string, nat>, role: string): nat {
    if role in counts then counts[role] else 0
  }

  ghost function Signers(approvals: seq<ApprovalPayload>): set<string> {
    set i | 0 <= i < |approvals| :: approvals[i].governorId
  }

  ghost function Nonces(approvals: seq<ApprovalPayload>): set<string> {
    set i | 0 <= i < |approvals| :: approvals[i].nonce
  }

  lemma SignersSnoc(approvals: seq<ApprovalPayload>, a: ApprovalPayload)
    ensures Signers(approvals + [a]) == Signers(approvals) + {a.governorId}
    ensures Nonces(approvals + [a]) == Nonces(approvals) + {a.nonce}
  {
    var longer := approvals + [a];
    assert longer[|approvals|] == a;
    assert forall i :: 0 <= i < |approvals| ==> longer[i] == approvals[i];
    forall i | 0 <= i < |approvals|
      ensures approvals[i].governorId in Signers(longer) && approvals[i].nonce in Nonces(longer)
    {
      assert longer[i] == approvals[i];
    }
    assert longer[|approvals|].governorId in Signers(longer) && longer[|approvals|].nonce in Nonces(longer);
  }

  lemma DifferentSnoc(approvals: seq<ApprovalPayload>, a: ApprovalPayload)
    ensures DifferentSigners(approvals + [a]) <==>
              DifferentSigners(approvals) && a.governorId !in Signers(approvals) && a.nonce !in Nonces(approvals)
  {
    var longer, n := approvals + [a], |approvals|;
    assert forall i :: 0 <= i < n ==> longer[i] == approvals[i];
    if DifferentSigners(longer) {
      forall i | 0 <= i < n ensures approvals[i].governorId != a.governorId && approvals[i].nonce != a.nonce {
        assert longer[i].governorId != longer[n].governorId && longer[i].nonce != longer[n].nonce;
      }
    }
  }

  /** One more approval: it must approve, by a new signer with a new nonce. */
  lemma ApproveOneMore(action: GovernanceAction, approvals: seq<ApprovalPayload>, a: ApprovalPayload,
                       p: GovernancePolicy,
                       now: real, signed: Signatures)
    ensures AllApprove(action, approvals + [a], p, now, signed) <==>
              && AllApprove(action, approvals, p, now, signed) && Approves(a, action, p, now, signed)
              && a.governorId !in Signers(approvals) && a.nonce !in Nonces(approvals)
  {
    DifferentSnoc(approvals, a);
    EachSnoc(action, approvals, a, p, now, signed);
  }

  lemma EachSnoc(action: GovernanceAction, approvals: seq<ApprovalPayload>, a: ApprovalPayload, p: GovernancePolicy,
                 now: real, signed: Signatures)
    ensures EachApproves(action, approvals + [a], p, now, signed) <==>
              EachApproves(action, approvals, p, now, signed) && Approves(a, action, p, now, signed)
  {
    var longer, n := approvals + [a], |approvals|;
    assert forall i :: 0 <= i < n ==> longer[i] == approvals[i];
    if EachApproves(action, longer, p, now, signed) {
      assert Approves(longer[n], action, p, now, signed);
      forall i | 0 <= i < n ensures Approves(approvals[i], action, p, now, signed) {
        assert Approves(longer[i], action, p, now, signed);
      }
    }
  }

  lemma PrefixApproves(action: GovernanceAction, approvals: seq<ApprovalPayload>, k: nat, p: GovernancePolicy,
                       now: real, signed: Signatures)
    requires k <= |approvals| && AllApprove(action, approvals, p, now, signed)
    ensures AllApprove(action, approvals[..k], p, now, signed)
  {
  }

  /** The loop over the approvals, with its seen sets. */
  method CollectApprovals(action: GovernanceAction, approvals: seq<ApprovalPayload>, p: GovernancePolicy,
                          now: real, signed: Signatures) returns (accepted: bool, roleCounts: map<string, nat>)
    ensures accepted <==> AllApprove(action, approvals, p, now, signed)
    ensures accepted ==> forall role :: Tally(roleCounts, role) == RoleCount(approvals, role)
  {
    var seenGovernors: set<string> := {};
    var seenNonces: set<string> := {};
    for k := 0 to |approvals|
      invariant AllApprove(action, approvals[..k], p, now, signed)
      invariant seenGovernors == Signers(approvals[..k]) && seenNonces == Nonces(approvals[..k])
    {
      assert approvals[..k + 1] == approvals[..k] + [approvals[k]];
      ApproveOneMore(action, approvals[..k], approvals[k], p, now, signed);
      SignersSnoc(approvals[..k], approvals[k]);
      var approves := Approves(approvals[k], action, p, now, signed);
      if !approves || approvals[k].governorId in seenGovernors || approvals[k].nonce in seenNonces {
        if AllApprove(action, approvals, p, now, signed) {
          PrefixApproves(action, approvals, k + 1, p, now, signed);
        }
        return false, map[];
      }
      seenGovernors := seenGovernors + {approvals[k].governorId};
      seenNonces := seenNonces + {approvals[k].nonce};
    }
    assert approvals[..|approvals|] == approvals;
    roleCounts := CountRoles(approvals);
    accepted := true;
  }

  method CountRoles(approvals: seq<ApprovalPayload>) returns (roleCounts: map<string, nat>)
    ensures forall role :: Tally(roleCounts, role) == RoleCount(approvals, role)
  {
    roleCounts := map[];
    for k := 0 to |approvals|
      invariant forall role :: Tally(roleCounts, role) == RoleCount(approvals[..k], role)
    {
      var role := approvals[k].role;
      assert approvals[..k + 1][..k] == approvals[..k];
      roleCounts := roleCounts[role := Tally(roleCounts, role) + 1];
    }
    assert approvals[..|approvals|] == approvals;
  }

  /** `verify_governance_quorum`. */
  method VerifyQuorum(action: GovernanceAction, approvals: seq<ApprovalPayload>, p: GovernancePolicy,
                      now: real, signed: Signatures) returns (accepted: bool)
    ensures accepted <==> QuorumAccepts(action, approvals, p, now, signed)
  {
    var validPolicy := ValidatePolicy(p);
    if !validPolicy || !ActionValid(action, p, now) {
      return false;
    }
    var approved, roleCounts := CollectApprovals(action, approvals, p, now, signed);
    if !approved || |approvals| < p.threshold {
      return false;
    }
    for k := 0 to |p.requiredRoles|
      invariant forall i :: 0 <= i < k ==> RoleCount(approvals, p.requiredRoles[i].0) >= p.requiredRoles[i].1
    {
      var r := p.requiredRoles[k];
      assert r in p.requiredRoles;
      if Tally(roleCounts, r.0) < r.1 {
        return false;
      }
    }
    return true;
  }

  // ------------------------------------------------------------ what it guarantees

  /** Where members, or approvals, have a role. */
  ghost function MembersIn(members: seq<Member>, role: string): set<int> {
    set i | 0 <= i < |members| && members[i].role == role
  }

  ghost function ApprovalsIn(approvals: seq<ApprovalPayload>, role: string): set<int> {
    set i | 0 <= i < |approvals| && approvals[i].role == role
  }

  lemma {:induction false} RoleMembersCount(members: seq<Member>, role: string)
    ensures RoleMembers(members, role) == |MembersIn(members, role)|
  {
    if members != [] {
      var n := |members| - 1;
      RoleMembersCount(members[..n], role);
      OnePlaceMore(MembersIn(members[..n], role), MembersIn(members, role), n, members[n].role == role);
    }
  }

  lemma {:induction false} RoleCountCounts(approvals: seq<ApprovalPayload>, role: string)
    ensures RoleCount(approvals, role) == |ApprovalsIn(approvals, role)|
  {
    if approvals != [] {
      var n := |approvals| - 1;
      RoleCountCounts(approvals[..n], role);
      OnePlaceMore(ApprovalsIn(approvals[..n], role), ApprovalsIn(approvals, role), n, approvals[n].role == role);
    }
  }

  /** A policy under which a quorum can be formed: members with ids that are their keys,
      all different, and role minimums that its members can meet. */
  ghost predicate Constituted(p: GovernancePolicy) {
    && p.version >= 1 && 1 <= p.threshold <= |p.members| && p.maxLifetime >= 1
    && (forall i :: 0 <= i < |p.members| ==>
          && p.members[i].governorId != "" && p.members[i].role != ""
          && p.members[i].publicKey == p.members[i].governorId)
    && (forall i, j :: 0 <= i < j < |p.members| ==> p.members[i].governorId != p.members[j].governorId)
    && (forall i :: 0 <= i < |p.requiredRoles| ==>
          p.requiredRoles[i].0 != "" && 1 <= p.requiredRoles[i].1 <= |MembersIn(p.members, p.requiredRoles[i].0)|)
    && (forall i, j :: 0 <= i < j < |p.requiredRoles| ==> p.requiredRoles[i].0 != p.requiredRoles[j].0)
  }

  /** An allowed action under exactly this policy, issued at most a minute ahead, not
      expired and within the policy's lifetime. */
  ghost predicate Actionable(action: GovernanceAction, p: GovernancePolicy, now: real) {
    && action.governancePolicy == p
    && action.actionId != "" && action.reason != "" && action.nonce != ""
    && action.issuedAt <= now + 60.0 && now < action.expiresAt
    && 0.0 < action.expiresAt - action.issuedAt <= p.maxLifetime as real
    && match action.body
       case AuthorityReset(s, epoch) =>
         "AUTHORITY_RESET" in p.allowedActions && epoch >= 1 && s.agentId != "" && s.capabilityId != ""
       case PolicyChange(_, _, _, _, _) => "POLICY_CHANGE" in p.allowedActions
       case PolicyFreeze(_, _) => "POLICY_FREEZE" in p.allowedActions
       case PolicyRollback(_, _, _, _) => "POLICY_ROLLBACK" in p.allowedActions
  }

  /** An approval of exactly this action, likewise timed, signed by a member in the
      member's own role. */
  ghost predicate Endorses(a: ApprovalPayload, action: GovernanceAction, p: GovernancePolicy, now: real,
                           signed: Signatures)
  {
    && a.action == action && a.approvalId != "" && a.nonce != ""
    && a.issuedAt <= now + 60.0 && now < a.expiresAt
    && 0.0 < a.expiresAt - a.issuedAt <= p.maxLifetime as real
    && exists m :: m in p.members && m.governorId == a.governorId && m.role == a.role && (m.publicKey, a) in signed
  }

  /** The quorum, exactly: a constituted policy, an actionable action, endorsements by
      different governors with different nonces, at least the threshold of them, and in
      every required role at least its minimum. */
  lemma QuorumExactly(action: GovernanceAction, approvals: seq<ApprovalPayload>, p: GovernancePolicy, now: real,
                      signed: Signatures)
    ensures QuorumAccepts(action, approvals, p, now, signed) <==>
              && Constituted(p) && Actionable(action, p, now)
              && (forall i :: 0 <= i < |approvals| ==> Endorses(approvals[i], action, p, now, signed))
              && (forall i, j :: 0 <= i < j < |approvals| ==>
                    approvals[i].governorId != approvals[j].governorId && approvals[i].nonce != approvals[j].nonce)
              && |approvals| >= p.threshold
              && (forall i :: 0 <= i < |p.requiredRoles| ==>
                    |ApprovalsIn(approvals, p.requiredRoles[i].0)| >= p.requiredRoles[i].1)
  {
    ConstitutedExactly(p);
    if Constituted(p) {
      EndorsedExactly(action, approvals, p, now, signed);
      forall r | r in p.requiredRoles ensures RoleCount(approvals, r.0) == |ApprovalsIn(approvals, r.0)| {
        RoleCountCounts(approvals, r.0);
      }
    }
  }

  lemma ConstitutedExactly(p: GovernancePolicy)
    ensures ValidPolicy(p) <==> Constituted(p)
  {
    forall r | r in p.requiredRoles ensures RoleMembers(p.members, r.0) == |MembersIn(p.members, r.0)| {
      RoleMembersCount(p.members, r.0);
    }
    assert forall i :: 0 <= i < |p.members| ==> MemberIds(p.members)[i] == p.members[i].governorId;
  }

  lemma EndorsedExactly(action: GovernanceAction, approvals: seq<ApprovalPayload>, p: GovernancePolicy, now: real,
                        signed: Signatures)
    requires Constituted(p)
    ensures EachApproves(action, approvals, p, now, signed) <==>
              forall i :: 0 <= i < |approvals| ==> Endorses(approvals[i], action, p, now, signed)
  {
    forall a: ApprovalPayload
      ensures Approves(a, action, p, now, signed) <==> Endorses(a, action, p, now, signed)
    {
      OneMemberOnly(p, a.governorId);
    }
  }

  lemma OneMemberOnly(p: GovernancePolicy, governor: string)
    requires Constituted(p)
    ensures forall m :: m in p.members && m.governorId == governor ==> MemberFor(p.members, governor) == Some(m)
    ensures MemberFor(p.members, governor).Some? ==>
              governor != "" && MemberFor(p.members, governor).value.role != ""
  {
  }

  ghost function RoleSigners(approvals: seq<ApprovalPayload>, role: string): set<string> {
    set i | 0 <= i < |approvals| && approvals[i].role == role :: approvals[i].governorId
  }

  lemma {:induction false} DistinctSignersCount(approvals: seq<ApprovalPayload>, role: string)
    requires forall i, j :: 0 <= i < j < |approvals| ==> approvals[i].governorId != approvals[j].governorId
    ensures |Signers(approvals)| == |approvals|
    ensures |RoleSigners(approvals, role)| == RoleCount(approvals, role)
  {
    if approvals != [] {
      var front, a := approvals[..|approvals| - 1], Last(approvals);
      DistinctSignersCount(front, role);
      SignersStep(approvals, role);
    }
  }

  lemma SignersStep(approvals: seq<ApprovalPayload>, role: string)
    requires approvals != []
    ensures Signers(approvals) == Signers(approvals[..|approvals| - 1]) + {Last(approvals).governorId}
    ensures RoleSigners(approvals, role)
         == RoleSigners(approvals[..|approvals| - 1], role)
            + if Last(approvals).role == role then {Last(approvals).governorId} else {}
    ensures Last(approvals).governorId in Signers(approvals[..|approvals| - 1]) ==>
              exists i :: 0 <= i < |approvals| - 1 && approvals[i].governorId == Last(approvals).governorId
    ensures RoleSigners(approvals[..|approvals| - 1], role) <= Signers(approvals[..|approvals| - 1])
  {
    var n := |approvals| - 1;
    assert approvals == approvals[..n] + [Last(approvals)];
    forall x | x in Signers(approvals) ensures x in Signers(approvals[..n]) + {Last(approvals).governorId} {
      var i :| 0 <= i < |approvals| && approvals[i].governorId == x;
      if i < n {
        assert approvals[..n][i].governorId == x;
      }
    }
    forall x | x in RoleSigners(approvals, role) && x != Last(approvals).governorId
      ensures x in RoleSigners(approvals[..n], role)
    {
      var i :| 0 <= i < |approvals| && approvals[i].role == role && approvals[i].governorId == x;
      assert approvals[..n][i].governorId == x;
    }
    forall x | x in Signers(approvals[..n]) ensures x in Signers(approvals) {
      var i :| 0 <= i < n && approvals[..n][i].governorId == x;
      assert approvals[i].governorId == x;
    }
    forall x | x in RoleSigners(approvals[..n], role) ensures x in RoleSigners(approvals, role) {
      var i :| 0 <= i < n && approvals[..n][i].role == role && approvals[..n][i].governorId == x;
      assert approvals[i].governorId == x;
    }
    assert approvals[n].governorId in Signers(approvals);
  }

  /** Soundness: an accepted quorum has at least `threshold` distinct members
      behind it, each signing this exact action in its registered role with an
      unexpired approval, and every required role reaches its minimum in
      distinct members. */
  lemma QuorumSound(action: GovernanceAction, approvals: seq<ApprovalPayload>, p: GovernancePolicy,
                    now: real, signed: Signatures)
    requires QuorumAccepts(action, approvals, p, now, signed)
    ensures |Signers(approvals)| >= p.threshold
    ensures forall g :: g in Signers(approvals) ==>
              exists a, m :: a in approvals && m in p.members && m.governorId == g == a.governorId
                             && a.role == m.role && a.action == action && a.expiresAt > now && (g, a) in signed
    ensures forall r :: r in p.requiredRoles ==>
              |RoleSigners(approvals, r.0)| >= r.1
              && forall g :: g in RoleSigners(approvals, r.0) ==>
                   exists m :: m in p.members && m.governorId == g && m.role == r.0
  {
    DistinctSignersCount(approvals, "");
    forall g | g in Signers(approvals)
      ensures exists a, m :: a in approvals && m in p.members && m.governorId == g == a.governorId
                             && a.role == m.role && a.action == action && a.expiresAt > now && (g, a) in signed
    {
      var i :| 0 <= i < |approvals| && approvals[i].governorId == g;
      var m := MemberFor(p.members, g).value;
      assert approvals[i] in approvals && Approves(approvals[i], action, p, now, signed);
    }
    forall r | r in p.requiredRoles
      ensures |RoleSigners(approvals, r.0)| >= r.1
      ensures forall g :: g in RoleSigners(approvals, r.0) ==>
                exists m :: m in p.members && m.governorId == g && m.role == r.0
    {
      DistinctSignersCount(approvals, r.0);
      forall g | g in RoleSigners(approvals, r.0)
        ensures exists m :: m in p.members && m.governorId == g && m.role == r.0
      {
        var i :| 0 <= i < |approvals| && approvals[i].role == r.0 && approvals[i].governorId == g;
        assert Approves(approvals[i], action, p, now, signed);
        assert MemberFor(p.members, g).value in p.members;
      }
    }
  }

  lemma {:induction false} SubsetSize<T>(a: set<T>, b: set<T>)
    requires a <= b
    ensures |a| <= |b|
  {
    if x :| x in a {
      SubsetSize(a - {x}, b - {x});
    }
  }

  lemma {:induction false} IdsSize(ids: seq<string>)
    ensures |Elements(ids)| <= |ids|
  {
    if ids != [] {
      IdsSize(ids[..|ids| - 1]);
      assert ids == ids[..|ids| - 1] + [Last(ids)];
      assert Elements(ids) == Elements(ids[..|ids| - 1]) + {Last(ids)};
    }
  }

  /** Overlap: two accepted quorums under one policy, for any two actions at any
      two times, share at least 2 * threshold - members governors. */
  lemma QuorumsOverlap(first: GovernanceAction, a: seq<ApprovalPayload>, t: real,
                       second: GovernanceAction, b: seq<ApprovalPayload>, u: real,
                       p: GovernancePolicy, signed: Signatures)
    requires QuorumAccepts(first, a, p, t, signed) && QuorumAccepts(second, b, p, u, signed)
    ensures |Signers(a) * Signers(b)| >= 2 * p.threshold - |p.members|
  {
    QuorumSound(first, a, p, t, signed);
    QuorumSound(second, b, p, u, signed);
    SignersAreMembers(first, a, p, t, signed);
    SignersAreMembers(second, b, p, u, signed);
    SubsetSize(Signers(a) + Signers(b), Elements(MemberIds(p.members)));
    IdsSize(MemberIds(p.members));
    assert |Signers(a) + Signers(b)| + |Signers(a) * Signers(b)| == |Signers(a)| + |Signers(b)|;
  }

  lemma SignersAreMembers(action: GovernanceAction, approvals: seq<ApprovalPayload>, p: GovernancePolicy, now: real,
                          signed: Signatures)
    requires forall i :: 0 <= i < |approvals| ==> Approves(approvals[i], action, p, now, signed)
    ensures Signers(approvals) <= Elements(MemberIds(p.members))
  {
    forall g | g in Signers(approvals) ensures g in Elements(MemberIds(p.members)) {
      var k :| 0 <= k < |approvals| && approvals[k].governorId == g;
      assert Approves(approvals[k], action, p, now, signed);
      var m := MemberFor(p.members, g).value;
      var i :| 0 <= i < |p.members| && p.members[i] == m;
      assert MemberIds(p.members)[i] == g;
    }
  }

  // ------------------------------------------------------------ the approvals table

  /** The constraints of `governance_approvals`: primary key, unique nonce, one
      approval per governor and action. */
  predicate ApprovalClash(a: ApprovalPayload, b: ApprovalPayload) {
    a.approvalId == b.approvalId || a.nonce == b.nonce || (a.action == b.action && a.governorId == b.governorId)
  }

  predicate ApprovalTaken(table: seq<ApprovalPayload>, a: ApprovalPayload) {
    exists i :: 0 <= i < |table| && ApprovalClash(table[i], a)
  }

  /** Inserting a batch in order; the first violation undoes all of it. */
  function InsertApprovals(table: seq<ApprovalPayload>, batch: seq<ApprovalPayload>): Option<seq<ApprovalPayload>> {
    if batch == [] then Some(table)
    else
      var rest := InsertApprovals(table, batch[..|batch| - 1]);
      if rest.None? || ApprovalTaken(rest.value, Last(batch)) then None else Some(rest.value + [Last(batch)])
  }

  ghost predicate ApprovalsUnique(table: seq<ApprovalPayload>) {
    forall i, j :: 0 <= i < j < |table| ==>
      && table[i].approvalId != table[j].approvalId && table[i].nonce != table[j].nonce
      && (table[i].action != table[j].action || table[i].governorId != table[j].governorId)
  }

  /** A batch that goes in is appended whole, and no two rows of the result share
      an id, a nonce or a signer of the same action. */
  lemma {:induction false} InsertedUnique(table: seq<ApprovalPayload>, batch: seq<ApprovalPayload>)
    requires ApprovalsUnique(table)
    ensures var r := InsertApprovals(table, batch);
            (r.Some? <==> ApprovalsUnique(table + batch)) && (r.Some? ==> r.value == table + batch)
  {
    if batch == [] {
      assert table + batch == table;
    } else {
      var front, a := batch[..|batch| - 1], Last(batch);
      InsertedUnique(table, front);
      assert table + batch == (table + front) + [a];
      UniqueSnoc(table + front, a);
    }
  }

  lemma UniqueSnoc(table: seq<ApprovalPayload>, a: ApprovalPayload)
    ensures ApprovalsUnique(table + [a]) <==> ApprovalsUnique(table) && !ApprovalTaken(table, a)
  {
    var longer := table + [a];
    assert forall i :: 0 <= i < |table| ==> longer[i] == table[i];
    assert longer[|table|] == a;
  }

  method StoreApprovals(table: seq<ApprovalPayload>, batch: seq<ApprovalPayload>)
    returns (stored: bool, result: seq<ApprovalPayload>)
    ensures stored <==> InsertApprovals(table, batch).Some?
    ensures result == InsertApprovals(table, batch).GetOr(table)
  {
    result := table;
    for k := 0 to |batch|
      invariant InsertApprovals(table, batch[..k]) == Some(result)
    {
      assert batch[..k + 1][..k] == batch[..k];
      if ApprovalTaken(result, batch[k]) {
        NoLaterInsert(table, batch, k + 1);
        return false, table;
      }
      result := result + [batch[k]];
    }
    assert batch[..|batch|] == batch;
    stored := true;
  }

  lemma {:induction false} NoLaterInsert(table: seq<ApprovalPayload>, batch: seq<ApprovalPayload>, k: nat)
    requires k <= |batch| && InsertApprovals(table, batch[..k]).None?
    ensures InsertApprovals(table, batch).None?
    decreases |batch|
  {
    if k == |batch| {
      assert batch[..k] == batch;
    } else {
      assert batch[..|batch| - 1][..k] == batch[..k];
      NoLaterInsert(table, batch[..|batch| - 1], k);
    }
  }
}
