/** Delegation of capabilities (core/authority.py) and the registry that decides
    whether a capability is effective (core/capabilities.py), over the
    capability and identity tables of core/storage.py. */
module Delegation {
  import opened Common
  import opened Models

  const MAX_DELEGATION_DEPTH := 32

  // ------------------------------------------------------------ scope checks

  predicate IsSubset(child: seq<string>, parent: seq<string>) {
    parent == [] || (child != [] && forall x :: x in child ==> x in parent)
  }

  predicate LimitsSubset(child: map<string, real>, parent: map<string, real>) {
    && (forall k :: k in child && k in parent ==> child[k] <= parent[k])
    && (forall k :: k in parent ==> k in child)
  }

  predicate ContextNarrows(child: map<string, Value>, parent: map<string, Value>) {
    forall k :: k in parent ==>
      && k in child
      && (if parent[k].Items? then
            if child[k].Items? then forall v :: v in child[k].items ==> v in parent[k].items
            else child[k] in parent[k].items
          else child[k] == parent[k])
  }

  predicate OutlivesParent(parent: Capability, child: Capability) {
    parent.expiresAt.Some? && (child.expiresAt.None? || child.expiresAt.value > parent.expiresAt.value)
  }

  datatype ScopeError =
    | ParentMismatch | InvalidDepth | DepthExceeded | ParentNotIdentityBound | DelegatorMismatch
    | ListExceeds | ContextExceeds | PerActionExceeds | AggregateExceeds | ConditionRemoved | OutlivesParentError

  function ValidateDelegationScope(parent: Capability, child: Capability): Option<ScopeError> {
    if child.delegatedFrom != Some(parent.capabilityId) then Some(ParentMismatch)
    else if child.delegationDepth != parent.delegationDepth + 1 then Some(InvalidDepth)
    else if child.delegationDepth > MAX_DELEGATION_DEPTH then Some(DepthExceeded)
    else if parent.identityId.None? then Some(ParentNotIdentityBound)
    else if child.delegatedByIdentityId != parent.identityId then Some(DelegatorMismatch)
    else if !(IsSubset(child.allowedActions, parent.allowedActions)
              && IsSubset(child.allowedPurposes, parent.allowedPurposes)
              && IsSubset(child.allowedTargets, parent.allowedTargets)
              && IsSubset(child.allowedResources, parent.allowedResources)
              && IsSubset(child.allowedNetworks, parent.allowedNetworks)
              && IsSubset(child.allowedAssets, parent.allowedAssets)) then Some(ListExceeds)
    else if !ContextNarrows(child.contextConstraints, parent.contextConstraints) then Some(ContextExceeds)
    else if !LimitsSubset(child.maxPerAction, parent.maxPerAction) then Some(PerActionExceeds)
    else if !LimitsSubset(child.aggregateLimits, parent.aggregateLimits) then Some(AggregateExceeds)
    else if !(forall c :: c in parent.conditions ==> c in child.conditions) then Some(ConditionRemoved)
    else if OutlivesParent(parent, child) then Some(OutlivesParentError)
    else None
  }

  /** A child list inside its parent's; an empty parent list restricts nothing. */
  ghost predicate Inside(child: seq<string>, parent: seq<string>) {
    parent == [] || {} < Elements(child) <= Elements(parent)
  }

  ghost predicate ListsInside(child: Capability, parent: Capability) {
    && Inside(child.allowedActions, parent.allowedActions) && Inside(child.allowedPurposes, parent.allowedPurposes)
    && Inside(child.allowedTargets, parent.allowedTargets) && Inside(child.allowedResources, parent.allowedResources)
    && Inside(child.allowedNetworks, parent.allowedNetworks) && Inside(child.allowedAssets, parent.allowedAssets)
  }

  /** A constraint that stays as it is or, under a list, admits listed values only. */
  ghost predicate Tightens(child: Value, parent: Value) {
    child == parent || (parent.Items? && forall v :: Admits(child, v) ==> v in parent.items)
  }

  /** What makes a child narrower than its parent, and bound to it: one level deeper and
      at most 32 deep, delegated by the identity the parent is bound to, every list
      inside, every constraint kept or tightened, every limit kept or lowered, every
      condition kept, and no later expiry. */
  ghost predicate Narrows(parent: Capability, child: Capability) {
    && child.delegatedFrom == Some(parent.capabilityId)
    && child.delegationDepth == parent.delegationDepth + 1 <= 32
    && parent.identityId.Some? && child.delegatedByIdentityId == parent.identityId
    && ListsInside(child, parent)
    && (forall k :: k in parent.contextConstraints ==>
          k in child.contextConstraints && Tightens(child.contextConstraints[k], parent.contextConstraints[k]))
    && (forall k :: k in parent.maxPerAction ==>
          k in child.maxPerAction && child.maxPerAction[k] <= parent.maxPerAction[k])
    && (forall k :: k in parent.aggregateLimits ==>
          k in child.aggregateLimits && child.aggregateLimits[k] <= parent.aggregateLimits[k])
    && (forall x :: x in parent.conditions ==> x in child.conditions)
    && (parent.expiresAt.Some? ==> child.expiresAt.Some? && child.expiresAt.value <= parent.expiresAt.value)
  }

  lemma InsideExactly(child: seq<string>, parent: seq<string>)
    ensures IsSubset(child, parent) <==> Inside(child, parent)
  {
    if parent != [] && child != [] {
      assert child[0] in Elements(child);
      if IsSubset(child, parent) {
        StrictlyInside(child, parent);
      } else {
        var x :| x in child && x !in parent;
        assert x in Elements(child) && x !in Elements(parent);
      }
    }
  }

  lemma StrictlyInside(child: seq<string>, parent: seq<string>)
    requires child != [] && forall x :: x in child ==> x in parent
    ensures {} < Elements(child) <= Elements(parent)
  {
    assert child[0] in Elements(child);
  }

  lemma ListsInsideExactly(child: Capability, parent: Capability)
    ensures ListsInside(child, parent) <==>
              && IsSubset(child.allowedActions, parent.allowedActions)
              && IsSubset(child.allowedPurposes, parent.allowedPurposes)
              && IsSubset(child.allowedTargets, parent.allowedTargets)
              && IsSubset(child.allowedResources, parent.allowedResources)
              && IsSubset(child.allowedNetworks, parent.allowedNetworks)
              && IsSubset(child.allowedAssets, parent.allowedAssets)
  {
    InsideExactly(child.allowedActions, parent.allowedActions);
    InsideExactly(child.allowedPurposes, parent.allowedPurposes);
    InsideExactly(child.allowedTargets, parent.allowedTargets);
    InsideExactly(child.allowedResources, parent.allowedResources);
    InsideExactly(child.allowedNetworks, parent.allowedNetworks);
    InsideExactly(child.allowedAssets, parent.allowedAssets);
  }

  lemma TightensExactly(child: Value, parent: Value)
    ensures Tightens(child, parent) <==>
              if parent.Items? then
                if child.Items? then forall v :: v in child.items ==> v in parent.items else child in parent.items
              else child == parent
  {
    if parent.Items? && child.Items? {
      forall v ensures Admits(child, v) <==> v in child.items {
      }
    } else if parent.Items? {
      assert Admits(child, child);
    }
  }

  lemma ContextNarrowsExactly(child: map<string, Value>, parent: map<string, Value>)
    ensures ContextNarrows(child, parent) <==>
              forall k :: k in parent ==> k in child && Tightens(child[k], parent[k])
  {
    forall k | k in parent && k in child
      ensures Tightens(child[k], parent[k]) <==>
                if parent[k].Items? then
                  if child[k].Items? then forall v :: v in child[k].items ==> v in parent[k].items
                  else child[k] in parent[k].items
                else child[k] == parent[k]
    {
      TightensExactly(child[k], parent[k]);
    }
  }

  /** Which children are accepted: exactly the narrower ones. */
  lemma AcceptsExactly(parent: Capability, child: Capability)
    ensures ValidateDelegationScope(parent, child) == None <==> Narrows(parent, child)
  {
    ListsInsideExactly(child, parent);
    ContextNarrowsExactly(child.contextConstraints, parent.contextConstraints);
  }

  /** In particular the whole authority can be handed on, up to 32 levels. */
  lemma WholeAuthorityPasses(parent: Capability, child: Capability)
    requires parent.identityId.Some? && parent.delegationDepth <= 31
    requires child == parent.(capabilityId := child.capabilityId, agentId := child.agentId,
                              identityId := child.identityId, version := child.version,
                              delegatedFrom := Some(parent.capabilityId), delegatedByIdentityId := parent.identityId,
                              delegationDepth := parent.delegationDepth + 1)
    ensures ValidateDelegationScope(parent, child) == None
  {
    AcceptsExactly(parent, child);
    forall list: seq<string> | list in {child.allowedActions, child.allowedPurposes, child.allowedTargets,
                                        child.allowedResources, child.allowedNetworks, child.allowedAssets}
      ensures Inside(list, list)
    {
      InsideExactly(list, list);
    }
  }

  /** A refusal names a wrong binding or a widening that is there. */
  lemma RefusalNamesWidening(parent: Capability, child: Capability)
    requires ValidateDelegationScope(parent, child).Some?
    ensures match ValidateDelegationScope(parent, child).value
            case ParentMismatch => child.delegatedFrom != Some(parent.capabilityId)
            case InvalidDepth => child.delegationDepth != parent.delegationDepth + 1
            case DepthExceeded => child.delegationDepth > 32
            case ParentNotIdentityBound => parent.identityId.None?
            case DelegatorMismatch => parent.identityId.Some? && child.delegatedByIdentityId != parent.identityId
            case ListExceeds => !ListsInside(child, parent)
            case ContextExceeds =>
              exists k :: k in parent.contextConstraints
                && (k in child.contextConstraints ==>
                      !Tightens(child.contextConstraints[k], parent.contextConstraints[k]))
            case PerActionExceeds =>
              exists k :: k in parent.maxPerAction
                && (k in child.maxPerAction ==> child.maxPerAction[k] > parent.maxPerAction[k])
            case AggregateExceeds =>
              exists k :: k in parent.aggregateLimits
                && (k in child.aggregateLimits ==> child.aggregateLimits[k] > parent.aggregateLimits[k])
            case ConditionRemoved => exists c :: c in parent.conditions && c !in child.conditions
            case OutlivesParentError =>
              parent.expiresAt.Some? && (child.expiresAt.None? || child.expiresAt.value > parent.expiresAt.value)
  {
    ListsInsideExactly(child, parent);
    ContextNarrowsExactly(child.contextConstraints, parent.contextConstraints);
  }

  // -------------------------------------------------------------- attenuation

  /** A delegation chain from the root down. */
  ghost predicate IsChain(chain: seq<Capability>) {
    forall i :: 0 <= i < |chain| - 1 ==> ValidateDelegationScope(chain[i], chain[i + 1]) == None
  }

  /** One delegation never widens what is permitted. */
  lemma OneStepAttenuates(parent: Capability, child: Capability, a: ActionIntent, now: real)
    requires ValidateDelegationScope(parent, child) == None
    requires Permits(child, a, now) == None
    ensures Permits(parent, a.(agentId := parent.agentId), now) == None
  {
    var b := a.(agentId := parent.agentId);
    if parent.allowedPurposes != [] {
      var p :| p in child.allowedPurposes && Lower(p) == Lower(a.purpose);
      assert p in parent.allowedPurposes;
    }
    forall key | key in parent.contextConstraints
      ensures Admits(parent.contextConstraints[key], ContextValue(b, key))
    {
      assert ContextValue(b, key) == ContextValue(a, key);
      assert Admits(child.contextConstraints[key], ContextValue(a, key));
    }
  }

  /** Attenuation along a chain of any length: apart from the agent, whatever a
      descendant permits, every ancestor permits at the same time. */
  lemma {:induction false} ChainAttenuates(chain: seq<Capability>, i: nat, j: nat, a: ActionIntent, now: real)
    requires IsChain(chain) && i <= j < |chain|
    requires Permits(chain[j], a, now) == None
    ensures Permits(chain[i], a.(agentId := chain[i].agentId), now) == None
    decreases j
  {
    if i < j {
      OneStepAttenuates(chain[j - 1], chain[j], a, now);
      var b := a.(agentId := chain[j - 1].agentId);
      ChainAttenuates(chain, i, j - 1, b, now);
      assert b.(agentId := chain[i].agentId) == a.(agentId := chain[i].agentId);
    }
  }

  /** Every per-action and aggregate limit an ancestor names is kept, and only
      lowered, by all descendants; no descendant outlives an ancestor or loses
      one of its conditions. */
  lemma {:induction false} ChainLimitsShrink(chain: seq<Capability>, i: nat, j: nat)
    requires IsChain(chain) && i <= j < |chain|
    ensures forall k :: k in chain[i].maxPerAction ==>
              k in chain[j].maxPerAction && chain[j].maxPerAction[k] <= chain[i].maxPerAction[k]
    ensures forall k :: k in chain[i].aggregateLimits ==>
              k in chain[j].aggregateLimits && chain[j].aggregateLimits[k] <= chain[i].aggregateLimits[k]
    ensures forall c :: c in chain[i].conditions ==> c in chain[j].conditions
    ensures chain[i].expiresAt.Some? ==>
              chain[j].expiresAt.Some? && chain[j].expiresAt.value <= chain[i].expiresAt.value
    ensures chain[j].delegationDepth == chain[i].delegationDepth + (j - i)
    decreases j
  {
    if i < j {
      ChainLimitsShrink(chain, i, j - 1);
      assert ValidateDelegationScope(chain[j - 1], chain[j - 1 + 1]) == None;
    }
  }

  // ------------------------------------------------------------------- tables

  datatype Status = Active | Revoked

  datatype Identity = Identity(keyId: string, agentId: string, expiresAt: Option<real>)

  datatype CapabilityRow = CapabilityRow(capability: Capability, status: Status)

  datatype IdentityRow = IdentityRow(identity: Identity, status: Status)

  datatype Tables = Tables(capabilities: seq<CapabilityRow>, identities: map<string, IdentityRow>)

  /** Position of the row with this primary key, or the table's length. */
  function Find(rows: seq<CapabilityRow>, id: string): (i: nat)
    ensures i <= |rows|
    ensures i < |rows| ==> rows[i].capability.capabilityId == id
    ensures forall j :: 0 <= j < i ==> rows[j].capability.capabilityId != id
  {
    if rows == [] then 0
    else if rows[0].capability.capabilityId == id then 0
    else 1 + Find(rows[1..], id)
  }

  predicate Registered(t: Tables, id: string) {
    Find(t.capabilities, id) < |t.capabilities|
  }

  function RowOf(t: Tables, id: string): CapabilityRow
    requires Registered(t, id)
  {
    t.capabilities[Find(t.capabilities, id)]
  }

  predicate Live(status: Status, expiresAt: Option<real>, now: real) {
    status == Active && (expiresAt.None? || now < expiresAt.value)
  }

  predicate CapabilityIsActive(t: Tables, id: string, now: real) {
    Registered(t, id) && Live(RowOf(t, id).status, RowOf(t, id).capability.expiresAt, now)
  }

  predicate IdentityIsActive(t: Tables, id: string, now: real) {
    id in t.identities && Live(t.identities[id].status, t.identities[id].identity.expiresAt, now)
  }

  /** Both the capability and the identity it is bound to are active. */
  predicate LinkActive(t: Tables, id: string, now: real) {
    && CapabilityIsActive(t, id, now)
    && (RowOf(t, id).capability.identityId.Some? ==>
          IdentityIsActive(t, RowOf(t, id).capability.identityId.value, now))
  }

  /** A row is stored under the id, and it is unrevoked and unexpired, and so is the
      identity it is bound to, if there is one. */
  ghost predicate Lives(t: Tables, id: string, now: real) {
    exists i :: 0 <= i < |t.capabilities| && StandsAt(t, id, i) && t.capabilities[i].status == Active
      && var c := t.capabilities[i].capability;
         && (c.expiresAt.Some? ==> now < c.expiresAt.value)
         && (c.identityId.Some? ==> IdentityLives(t, c.identityId.value, now))
  }

  ghost predicate StandsAt(t: Tables, id: string, i: int)
    requires 0 <= i < |t.capabilities|
  {
    t.capabilities[i].capability.capabilityId == id
    && forall j :: 0 <= j < i ==> t.capabilities[j].capability.capabilityId != id
  }

  lemma LinkActiveExactly(t: Tables, id: string, now: real)
    ensures LinkActive(t, id, now) <==> Lives(t, id, now)
  {
    var i := Find(t.capabilities, id);
    if i < |t.capabilities| {
      assert StandsAt(t, id, i);
      assert forall j :: 0 <= j < |t.capabilities| && StandsAt(t, id, j) ==> j == i;
    }
  }

  // ------------------------------------------------------------- the invariant

  /** A registered child follows its parent in the table and was validated
      against it: the parent relation is acyclic and rooted by construction. */
  ghost predicate WellFormed(t: Tables) {
    && (forall i :: 0 <= i < |t.capabilities| ==>
          Find(t.capabilities, t.capabilities[i].capability.capabilityId) == i)
    && (forall i {:trigger ParentValidated(t.capabilities, i)} ::
          0 <= i < |t.capabilities| ==> ParentValidated(t.capabilities, i))
    && (forall i :: 0 <= i < |t.capabilities| && t.capabilities[i].capability.identityId.Some? ==>
          t.capabilities[i].capability.identityId.value in t.identities)
  }

  ghost predicate ParentValidated(rows: seq<CapabilityRow>, i: nat)
    requires i < |rows|
  {
    rows[i].capability.delegatedFrom.Some? ==>
      && Find(rows, rows[i].capability.delegatedFrom.value) < i
      && ValidateDelegationScope(rows[Find(rows, rows[i].capability.delegatedFrom.value)].capability,
                                 rows[i].capability) == None
  }

  /** The authority path of row `i`, from the row up to its root. */
  ghost function Ancestry(t: Tables, i: nat): (r: seq<Capability>)
    requires WellFormed(t) && i < |t.capabilities|
    ensures |r| >= 1 && r[0] == t.capabilities[i].capability
    ensures |r| <= i + 1
    decreases i
  {
    var c := t.capabilities[i].capability;
    assert ParentValidated(t.capabilities, i);
    [c] + if c.delegatedFrom.None? then [] else Ancestry(t, Find(t.capabilities, c.delegatedFrom.value))
  }

  /** Every capability on the authority path of `id` is active with its identity. */
  ghost predicate WholeChainActive(t: Tables, id: string, now: real)
    requires WellFormed(t)
  {
    Registered(t, id) && AllActive(t, Ancestry(t, Find(t.capabilities, id)), now)
  }

  ghost predicate AllActive(t: Tables, chain: seq<Capability>, now: real) {
    forall c :: c in chain ==> LinkActive(t, c.capabilityId, now)
  }

  lemma AllActiveStep(t: Tables, c: Capability, rest: seq<Capability>, now: real)
    ensures AllActive(t, [c] + rest, now) <==> LinkActive(t, c.capabilityId, now) && AllActive(t, rest, now)
  {
    assert forall x :: x in [c] + rest <==> x == c || x in rest;
  }

  /** Reversed, the authority path is a delegation chain ending in the row. */
  lemma {:induction false} AncestryIsChain(t: Tables, i: nat)
    requires WellFormed(t) && i < |t.capabilities|
    ensures forall k :: 0 <= k < |Ancestry(t, i)| - 1 ==>
              ValidateDelegationScope(Ancestry(t, i)[k + 1], Ancestry(t, i)[k]) == None
    ensures Last(Ancestry(t, i)).delegatedFrom == None
    ensures t.capabilities[i].capability.delegationDepth
         == Last(Ancestry(t, i)).delegationDepth + |Ancestry(t, i)| - 1
    decreases i
  {
    assert ParentValidated(t.capabilities, i);
    var c := t.capabilities[i].capability;
    if c.delegatedFrom.Some? {
      var p := Find(t.capabilities, c.delegatedFrom.value);
      AncestryIsChain(t, p);
      var r := Ancestry(t, p);
      assert Ancestry(t, i) == [c] + r;
      forall k | 0 <= k < |[c] + r| - 1
        ensures ValidateDelegationScope(([c] + r)[k + 1], ([c] + r)[k]) == None
      {
        if k > 0 {
          assert ([c] + r)[k] == r[k - 1] && ([c] + r)[k + 1] == r[k - 1 + 1];
        }
      }
    }
  }

  /** Whatever a registered capability permits, every capability on its authority
      path permits at the same time, for that capability's own agent. */
  lemma {:induction false} RegisteredAttenuates(t: Tables, i: nat, k: nat, a: ActionIntent, now: real)
    requires WellFormed(t) && i < |t.capabilities| && k < |Ancestry(t, i)|
    requires Permits(t.capabilities[i].capability, a, now) == None
    ensures Permits(Ancestry(t, i)[k], a.(agentId := Ancestry(t, i)[k].agentId), now) == None
    decreases k
  {
    if k == 0 {
      assert a.(agentId := t.capabilities[i].capability.agentId) == a;
    } else {
      RegisteredAttenuates(t, i, k - 1, a, now);
      AncestryIsChain(t, i);
      var child := Ancestry(t, i)[k - 1];
      assert ValidateDelegationScope(Ancestry(t, i)[k - 1 + 1], child) == None;
      OneStepAttenuates(Ancestry(t, i)[k], child, a.(agentId := child.agentId), now);
    }
  }

  /** A per-action limit named anywhere on the authority path is named by the
      registered capability itself, and is at most as high there. */
  lemma {:induction false} RegisteredLimitsShrink(t: Tables, i: nat, k: nat, asset: string)
    requires WellFormed(t) && i < |t.capabilities| && k < |Ancestry(t, i)|
    requires asset in Ancestry(t, i)[k].maxPerAction
    ensures asset in t.capabilities[i].capability.maxPerAction
    ensures t.capabilities[i].capability.maxPerAction[asset] <= Ancestry(t, i)[k].maxPerAction[asset]
    decreases k
  {
    if k > 0 {
      AncestryIsChain(t, i);
      assert ValidateDelegationScope(Ancestry(t, i)[k - 1 + 1], Ancestry(t, i)[k - 1]) == None;
      RegisteredLimitsShrink(t, i, k - 1, asset);
    }
  }

  /** With a root depth of at least zero the loop's depth bound is never the
      reason a registered chain is refused. */
  lemma DepthBoundNeverRejects(t: Tables, i: nat)
    requires WellFormed(t) && i < |t.capabilities|
    requires Last(Ancestry(t, i)).delegationDepth >= 0
    ensures |Ancestry(t, i)| <= MAX_DELEGATION_DEPTH + 1
  {
    AncestryIsChain(t, i);
    if |Ancestry(t, i)| > 1 {
      assert ValidateDelegationScope(Ancestry(t, i)[0 + 1], Ancestry(t, i)[0]) == None;
    }
  }

  /** Hence, for such a root, a registered capability is effective exactly when
      every capability on its authority path and every identity those are bound
      to is active. */
  lemma EffectiveMeansWholeChain(t: Tables, id: string, now: real)
    requires WellFormed(t) && Registered(t, id)
    requires Last(Ancestry(t, Find(t.capabilities, id))).delegationDepth >= 0
    ensures Effective(t, id, now) <==>
              forall c :: c in Ancestry(t, Find(t.capabilities, id)) ==> LinkActive(t, c.capabilityId, now)
  {
    DepthBoundNeverRejects(t, Find(t.capabilities, id));
  }

  // ------------------------------------------------------------ the operations

  datatype RegistryError =
    | NotRoot | IdentityNotFound | IdentityAgentMismatch | AlreadyRegistered
    | ParentNotFound | ParentNotEffective | DelegatorNotFound | DelegatorInactive | NotOwner
    | RecipientUnbound | RecipientNotFound | RecipientInactive | RecipientAgentMismatch
    | OutsideScope(error: ScopeError) | BadSignature

  /** `effective_active` as a property of the tables. */
  ghost predicate Effective(t: Tables, id: string, now: real)
    requires WellFormed(t)
  {
    WholeChainActive(t, id, now) && |Ancestry(t, Find(t.capabilities, id))| <= MAX_DELEGATION_DEPTH + 1
  }

  function Insert(t: Tables, c: Capability): Result<Tables, RegistryError> {
    if Registered(t, c.capabilityId) then Err(AlreadyRegistered)
    else Ok(t.(capabilities := t.capabilities + [CapabilityRow(c, Active)]))
  }

  function RegisterSpec(t: Tables, c: Capability): Result<Tables, RegistryError> {
    if c.delegatedFrom.Some? then Err(NotRoot)
    else if c.identityId.Some? && c.identityId.value !in t.identities then Err(IdentityNotFound)
    else if c.identityId.Some? && t.identities[c.identityId.value].identity.agentId != c.agentId
      then Err(IdentityAgentMismatch)
    else Insert(t, c)
  }

  ghost function DelegateSpec(t: Tables, parentId: string, child: Capability, delegator: string,
                              signatureOk: bool, now: real): Result<Tables, RegistryError>
    requires WellFormed(t)
  {
    if !Registered(t, parentId) then Err(ParentNotFound)
    else if !Effective(t, parentId, now) then Err(ParentNotEffective)
    else if delegator !in t.identities then Err(DelegatorNotFound)
    else if !IdentityIsActive(t, delegator, now) then Err(DelegatorInactive)
    else
      var parent := RowOf(t, parentId).capability;
      if parent.identityId != Some(delegator) then Err(NotOwner)
      else if child.identityId.None? then Err(RecipientUnbound)
      else if child.identityId.value !in t.identities then Err(RecipientNotFound)
      else if !IdentityIsActive(t, child.identityId.value, now) then Err(RecipientInactive)
      else if t.identities[child.identityId.value].identity.agentId != child.agentId
        then Err(RecipientAgentMismatch)
      else match ValidateDelegationScope(parent, child)
        case Some(e) => Err(OutsideScope(e))
        case None => if !signatureOk then Err(BadSignature) else Insert(t, child)
  }

  /** When a delegation goes through: the parent is effective and bound to the active
      delegator, the recipient's identity is active and its agent the child's, the child
      is narrower, the signature is right and the id is new. */
  lemma DelegatesExactly(t: Tables, parentId: string, child: Capability, delegator: string, signatureOk: bool,
                         now: real)
    requires WellFormed(t)
    ensures DelegateSpec(t, parentId, child, delegator, signatureOk, now).Ok? <==>
              && Registered(t, parentId) && Effective(t, parentId, now)
              && IdentityLives(t, delegator, now)
              && t.capabilities[Find(t.capabilities, parentId)].capability.identityId == Some(delegator)
              && child.identityId.Some? && IdentityLives(t, child.identityId.value, now)
              && t.identities[child.identityId.value].identity.agentId == child.agentId
              && Narrows(t.capabilities[Find(t.capabilities, parentId)].capability, child)
              && signatureOk
              && forall i :: 0 <= i < |t.capabilities| ==>
                   t.capabilities[i].capability.capabilityId != child.capabilityId
    ensures DelegateSpec(t, parentId, child, delegator, signatureOk, now).Ok? ==>
              DelegateSpec(t, parentId, child, delegator, signatureOk, now).value
                == Tables(t.capabilities + [CapabilityRow(child, Active)], t.identities)
  {
    if Registered(t, parentId) {
      AcceptsExactly(RowOf(t, parentId).capability, child);
    }
  }

  /** The parent is effective and bound to the delegator. */
  ghost predicate Owned(t: Tables, parentId: string, delegator: string, now: real)
    requires WellFormed(t)
  {
    Effective(t, parentId, now) && RowOf(t, parentId).capability.identityId == Some(delegator)
  }

  /** What is wrong with the parent or the delegator, by the first thing that is. */
  ghost predicate OwnerWrong(t: Tables, parentId: string, delegator: string, now: real, error: RegistryError)
    requires WellFormed(t)
  {
    match error
    case ParentNotFound => !Registered(t, parentId)
    case ParentNotEffective => Registered(t, parentId) && !Effective(t, parentId, now)
    case DelegatorNotFound => Effective(t, parentId, now) && delegator !in t.identities
    case DelegatorInactive =>
      Effective(t, parentId, now) && delegator in t.identities && !IdentityLives(t, delegator, now)
    case NotOwner => Effective(t, parentId, now) && IdentityLives(t, delegator, now)
    case _ => false
  }

  /** What is wrong with the child, its recipient or the signature. */
  ghost predicate ChildWrong(t: Tables, parent: Capability, child: Capability, signatureOk: bool, now: real,
                             error: RegistryError)
  {
    var received := child.identityId.Some? && IdentityLives(t, child.identityId.value, now)
                    && t.identities[child.identityId.value].identity.agentId == child.agentId;
    match error
    case RecipientUnbound => child.identityId == None
    case RecipientNotFound => child.identityId.Some? && child.identityId.value !in t.identities
    case RecipientInactive =>
      child.identityId.Some? && child.identityId.value in t.identities
      && !IdentityLives(t, child.identityId.value, now)
    case RecipientAgentMismatch =>
      child.identityId.Some? && IdentityLives(t, child.identityId.value, now)
      && t.identities[child.identityId.value].identity.agentId != child.agentId
    case OutsideScope(e) => received && ValidateDelegationScope(parent, child) == Some(e)
    case BadSignature => received && Narrows(parent, child) && !signatureOk
    case AlreadyRegistered => received && Narrows(parent, child) && signatureOk && Registered(t, child.capabilityId)
    case _ => false
  }

  /** A refused delegation names the first thing that is wrong: with the parent or the
      delegator, or else with the child. */
  lemma RefusalNamesReason(t: Tables, parentId: string, child: Capability, delegator: string, signatureOk: bool,
                           now: real)
    requires WellFormed(t) && DelegateSpec(t, parentId, child, delegator, signatureOk, now).Err?
    ensures var error := DelegateSpec(t, parentId, child, delegator, signatureOk, now).error;
            if Owned(t, parentId, delegator, now) && IdentityLives(t, delegator, now)
            then ChildWrong(t, RowOf(t, parentId).capability, child, signatureOk, now, error)
            else OwnerWrong(t, parentId, delegator, now, error)
  {
    if Registered(t, parentId) {
      AcceptsExactly(RowOf(t, parentId).capability, child);
    }
  }

  ghost predicate IdentityLives(t: Tables, id: string, now: real) {
    id in t.identities && t.identities[id].status == Active
    && (t.identities[id].identity.expiresAt.Some? ==> now < t.identities[id].identity.expiresAt.value)
  }

  /** A root is registered when it has no parent, its bound identity is known and of its
      agent, and the id is new. */
  lemma RegistersExactly(t: Tables, c: Capability)
    ensures RegisterSpec(t, c).Ok? <==>
              && c.delegatedFrom == None
              && (c.identityId.Some? ==>
                    c.identityId.value in t.identities
                    && t.identities[c.identityId.value].identity.agentId == c.agentId)
              && forall i :: 0 <= i < |t.capabilities| ==> t.capabilities[i].capability.capabilityId != c.capabilityId
    ensures RegisterSpec(t, c).Err? ==>
              match RegisterSpec(t, c).error
              case NotRoot => c.delegatedFrom.Some?
              case IdentityNotFound => c.identityId.Some? && c.identityId.value !in t.identities
              case IdentityAgentMismatch =>
                c.identityId.Some? && c.identityId.value in t.identities
                && t.identities[c.identityId.value].identity.agentId != c.agentId
              case AlreadyRegistered => c.delegatedFrom == None && Registered(t, c.capabilityId)
              case _ => false
    ensures RegisterSpec(t, c).Ok? ==>
              RegisterSpec(t, c).value == Tables(t.capabilities + [CapabilityRow(c, Active)], t.identities)
  {
  }

  function RevokeSpec(t: Tables, id: string): Tables {
    if Registered(t, id) && RowOf(t, id).status == Active then
      t.(capabilities := t.capabilities[Find(t.capabilities, id) := RowOf(t, id).(status := Revoked)])
    else t
  }

  function RevokeIdentitySpec(t: Tables, id: string): Tables {
    if id in t.identities && t.identities[id].status == Active then
      t.(identities := t.identities[id := t.identities[id].(status := Revoked)])
    else t
  }

  function RegisterIdentitySpec(t: Tables, identity: Identity): Result<Tables, RegistryError> {
    if identity.keyId in t.identities then Err(AlreadyRegistered)
    else Ok(t.(identities := t.identities[identity.keyId := IdentityRow(identity, Active)]))
  }

  // --------------------------------------------------- what each step preserves

  lemma FindInPrefix(rows: seq<CapabilityRow>, row: CapabilityRow, id: string)
    ensures Find(rows, id) < |rows| ==> Find(rows + [row], id) == Find(rows, id)
    ensures Find(rows, id) == |rows| ==>
              Find(rows + [row], id) == if row.capability.capabilityId == id then |rows| else |rows| + 1
  {
    var i, j := Find(rows, id), Find(rows + [row], id);
    if i < |rows| {
      assert (rows + [row])[i].capability.capabilityId == id;
    } else {
      assert (rows + [row])[|rows|] == row;
    }
    if j < |rows| {
      assert (rows + [row])[j] == rows[j];
    }
  }

  lemma InsertKeepsWellFormed(t: Tables, c: Capability)
    requires WellFormed(t) && Insert(t, c).Ok?
    requires c.identityId.Some? ==> c.identityId.value in t.identities
    requires c.delegatedFrom.Some? ==>
               Registered(t, c.delegatedFrom.value)
               && ValidateDelegationScope(RowOf(t, c.delegatedFrom.value).capability, c) == None
    ensures WellFormed(Insert(t, c).value)
  {
    var row := CapabilityRow(c, Active);
    var rows := t.capabilities + [row];
    forall i | 0 <= i < |rows| ensures Find(rows, rows[i].capability.capabilityId) == i {
      FindInPrefix(t.capabilities, row, rows[i].capability.capabilityId);
    }
    forall i | 0 <= i < |rows| ensures ParentValidated(rows, i) {
      if rows[i].capability.delegatedFrom.Some? {
        FindInPrefix(t.capabilities, row, rows[i].capability.delegatedFrom.value);
        if i < |t.capabilities| {
          assert ParentValidated(t.capabilities, i);
        }
      }
    }
  }

  /** Replacing a row's status moves no key. */
  lemma FindIgnoresStatus(rows: seq<CapabilityRow>, i: nat, status: Status, id: string)
    requires i < |rows|
    ensures Find(rows[i := rows[i].(status := status)], id) == Find(rows, id)
  {
    var rows' := rows[i := rows[i].(status := status)];
    assert forall j :: 0 <= j < |rows| ==> rows'[j].capability == rows[j].capability;
    var f, g := Find(rows, id), Find(rows', id);
  }

  lemma RevokeKeepsWellFormed(t: Tables, id: string)
    requires WellFormed(t)
    ensures WellFormed(RevokeSpec(t, id))
  {
    if Registered(t, id) && RowOf(t, id).status == Active {
      var k := Find(t.capabilities, id);
      var rows := RevokeSpec(t, id).capabilities;
      forall i | 0 <= i < |rows| ensures Find(rows, rows[i].capability.capabilityId) == i {
        FindIgnoresStatus(t.capabilities, k, Revoked, rows[i].capability.capabilityId);
      }
      forall i | 0 <= i < |rows| ensures ParentValidated(rows, i) {
        assert ParentValidated(t.capabilities, i);
        if rows[i].capability.delegatedFrom.Some? {
          FindIgnoresStatus(t.capabilities, k, Revoked, rows[i].capability.delegatedFrom.value);
        }
      }
    }
  }

  /** The tables only grow: keys, capabilities and identities never change, and
      a status only ever moves from active to revoked. */
  ghost predicate Extends(t: Tables, u: Tables) {
    && |t.capabilities| <= |u.capabilities|
    && (forall i :: 0 <= i < |t.capabilities| ==>
          && u.capabilities[i].capability == t.capabilities[i].capability
          && (t.capabilities[i].status == Revoked ==> u.capabilities[i].status == Revoked))
    && (forall id :: id in t.identities ==>
          && id in u.identities
          && u.identities[id].identity == t.identities[id].identity
          && (t.identities[id].status == Revoked ==> u.identities[id].status == Revoked))
  }

  lemma InsertExtends(t: Tables, c: Capability)
    requires Insert(t, c).Ok?
    ensures Extends(t, Insert(t, c).value)
  {
  }

  lemma RevokeExtends(t: Tables, id: string)
    ensures Extends(t, RevokeSpec(t, id))
  {
  }

  lemma DelegateInserts(t: Tables, p: string, c: Capability, d: string, s: bool, now: real)
    requires WellFormed(t)
    ensures DelegateSpec(t, p, c, d, s, now).Ok? ==> DelegateSpec(t, p, c, d, s, now) == Insert(t, c)
  {
  }

  lemma ExtendsTransitive(t: Tables, u: Tables, v: Tables)
    requires Extends(t, u) && Extends(u, v)
    ensures Extends(t, v)
  {
  }

  lemma FindStable(t: Tables, u: Tables, id: string)
    requires Extends(t, u) && Registered(t, id)
    ensures Find(u.capabilities, id) == Find(t.capabilities, id)
  {
    var i := Find(t.capabilities, id);
    assert u.capabilities[i].capability.capabilityId == id;
    forall j | 0 <= j < i ensures u.capabilities[j].capability.capabilityId != id {
      assert u.capabilities[j].capability == t.capabilities[j].capability;
    }
    var k := Find(u.capabilities, id);
  }

  /** The authority path of a registered capability never changes. */
  lemma {:induction false} AncestryStable(t: Tables, u: Tables, i: nat)
    requires WellFormed(t) && WellFormed(u) && Extends(t, u) && i < |t.capabilities|
    ensures Ancestry(u, i) == Ancestry(t, i)
    decreases i
  {
    var c := t.capabilities[i].capability;
    assert ParentValidated(t.capabilities, i) && u.capabilities[i].capability == c;
    if c.delegatedFrom.Some? {
      FindStable(t, u, c.delegatedFrom.value);
      AncestryStable(t, u, Find(t.capabilities, c.delegatedFrom.value));
    }
  }

  /** The authority path of a newly inserted child: the child, then its parent's. */
  lemma {:induction false} ChildPath(t: Tables, child: Capability, now: real)
    requires WellFormed(t) && Insert(t, child).Ok? && child.delegatedFrom.Some?
               && Registered(t, child.delegatedFrom.value)
    requires WellFormed(Insert(t, child).value)
    ensures var u, p := Insert(t, child).value, Find(t.capabilities, child.delegatedFrom.value);
            && Find(u.capabilities, child.capabilityId) == |t.capabilities|
            && Ancestry(u, |t.capabilities|) == [child] + Ancestry(t, p)
            && (AllActive(u, Ancestry(t, p), now) <==> AllActive(t, Ancestry(t, p), now))
  {
    var u, p, n := Insert(t, child).value, Find(t.capabilities, child.delegatedFrom.value), |t.capabilities|;
    InsertExtends(t, child);
    assert Find(u.capabilities, u.capabilities[n].capability.capabilityId) == n;
    FindStable(t, u, child.delegatedFrom.value);
    AncestryStable(t, u, p);
    AncestorsRegistered(t, p);
    ActiveStable(t, u, Ancestry(t, p), now);
  }

  /** Exactly when a row inserted under a registered parent is effective: the parent
      is, the recipient's identity is active and the row has not expired. What was
      checked before the insert, and when, does not matter. */
  lemma InsertedEffectiveExactly(t: Tables, child: Capability, now: real)
    requires WellFormed(t) && Insert(t, child).Ok? && child.delegatedFrom.Some? && child.identityId.Some?
    requires child.identityId.value in t.identities && Registered(t, child.delegatedFrom.value)
    requires ValidateDelegationScope(RowOf(t, child.delegatedFrom.value).capability, child) == None
    requires Last(Ancestry(t, Find(t.capabilities, child.delegatedFrom.value))).delegationDepth >= 0
    ensures WellFormed(Insert(t, child).value)
    ensures Effective(Insert(t, child).value, child.capabilityId, now) <==>
              && Effective(t, child.delegatedFrom.value, now)
              && IdentityIsActive(t, child.identityId.value, now)
              && (child.expiresAt.None? || now < child.expiresAt.value)
  {
    InsertKeepsWellFormed(t, child);
    NewPathShort(t, child, now);
    NewPathActive(t, child, now);
    NewLink(t, child, now);
    DepthBoundNeverRejects(t, Find(t.capabilities, child.delegatedFrom.value));
  }

  /** So an uninterrupted delegation that goes through is effective at once, unless
      the child was given an expiry that has already passed: the parent's whole chain
      and the recipient were checked. */
  lemma DelegationYieldsEffective(t: Tables, parentId: string, child: Capability, delegator: string, now: real)
    requires WellFormed(t) && DelegateSpec(t, parentId, child, delegator, true, now).Ok?
    requires Last(Ancestry(t, Find(t.capabilities, parentId))).delegationDepth >= 0
    ensures WellFormed(DelegateSpec(t, parentId, child, delegator, true, now).value)
    ensures Effective(DelegateSpec(t, parentId, child, delegator, true, now).value, child.capabilityId, now)
            <==> (child.expiresAt.None? || now < child.expiresAt.value)
  {
    DelegateInserts(t, parentId, child, delegator, true, now);
    InsertedEffectiveExactly(t, child, now);
  }

  lemma NewLink(t: Tables, child: Capability, now: real)
    requires Insert(t, child).Ok? && Find(Insert(t, child).value.capabilities, child.capabilityId) == |t.capabilities|
    requires child.identityId.Some?
    ensures LinkActive(Insert(t, child).value, child.capabilityId, now) <==>
              IdentityIsActive(t, child.identityId.value, now)
              && (child.expiresAt.None? || now < child.expiresAt.value)
  {
  }

  /** The new row's path is all active exactly when its own link and its parent's
      path are. */
  lemma NewPathActive(t: Tables, child: Capability, now: real)
    requires WellFormed(t) && Insert(t, child).Ok? && WellFormed(Insert(t, child).value)
    requires child.delegatedFrom.Some? && Registered(t, child.delegatedFrom.value)
    ensures WholeChainActive(Insert(t, child).value, child.capabilityId, now) <==>
              && LinkActive(Insert(t, child).value, child.capabilityId, now)
              && WholeChainActive(t, child.delegatedFrom.value, now)
  {
    ChildPath(t, child, now);
    AllActiveStep(Insert(t, child).value, child, Ancestry(t, Find(t.capabilities, child.delegatedFrom.value)), now);
  }

  lemma NewPathShort(t: Tables, child: Capability, now: real)
    requires WellFormed(t) && Insert(t, child).Ok? && WellFormed(Insert(t, child).value)
    requires child.delegatedFrom.Some? && Registered(t, child.delegatedFrom.value)
    requires Last(Ancestry(t, Find(t.capabilities, child.delegatedFrom.value))).delegationDepth >= 0
    ensures Find(Insert(t, child).value.capabilities, child.capabilityId) == |t.capabilities|
    ensures |Ancestry(Insert(t, child).value, |t.capabilities|)| <= MAX_DELEGATION_DEPTH + 1
  {
    var u, rest := Insert(t, child).value, Ancestry(t, Find(t.capabilities, child.delegatedFrom.value));
    assert Find(u.capabilities, child.capabilityId) == |t.capabilities|
           && Ancestry(u, |t.capabilities|) == [child] + rest by {
      ChildPath(t, child, now);
    }
    assert Last([child] + rest) == Last(rest);
    DepthBoundNeverRejects(u, |t.capabilities|);
  }

  lemma {:induction false} AncestorsRegistered(t: Tables, i: nat)
    requires WellFormed(t) && i < |t.capabilities|
    ensures forall c :: c in Ancestry(t, i) ==> Registered(t, c.capabilityId)
    decreases i
  {
    assert ParentValidated(t.capabilities, i);
    var c := t.capabilities[i].capability;
    assert Find(t.capabilities, c.capabilityId) == i;
    if c.delegatedFrom.Some? {
      AncestorsRegistered(t, Find(t.capabilities, c.delegatedFrom.value));
    }
  }

  /** An insert changes no other link. */
  lemma ActiveStable(t: Tables, u: Tables, chain: seq<Capability>, now: real)
    requires u.identities == t.identities && t.capabilities <= u.capabilities && Extends(t, u)
    requires forall c :: c in chain ==> Registered(t, c.capabilityId)
    ensures AllActive(u, chain, now) <==> AllActive(t, chain, now)
  {
    forall c | c in chain ensures LinkActive(u, c.capabilityId, now) <==> LinkActive(t, c.capabilityId, now) {
      FindStable(t, u, c.capabilityId);
    }
  }

  /** The authority path of row `i`, empty when there is no such row. */
  ghost function PathUpwards(t: Tables, i: nat): seq<Capability>
    requires WellFormed(t)
  {
    if i < |t.capabilities| then Ancestry(t, i) else []
  }

  /** The path from row `i` is the row and the path from its parent. */
  lemma PathStep(t: Tables, i: nat, up: seq<Capability>)
    requires WellFormed(t) && i < |t.capabilities|
    ensures var c := t.capabilities[i].capability;
            var next := if c.delegatedFrom.None? then |t.capabilities| else Find(t.capabilities, c.delegatedFrom.value);
            (c.delegatedFrom.Some? ==> next < i) && up + PathUpwards(t, i) == up + [c] + PathUpwards(t, next)
  {
    assert ParentValidated(t.capabilities, i);
  }

  /** What the walk still has to find out from `current` at `depth`. */
  ghost predicate EffectiveFrom(t: Tables, current: Option<string>, depth: nat, now: real)
    requires WellFormed(t)
  {
    current.Some? ==>
      && WholeChainActive(t, current.value, now)
      && depth + |Ancestry(t, Find(t.capabilities, current.value))| <= MAX_DELEGATION_DEPTH + 1
  }

  /** The authority path, as the walk sees it: one link, then the parent's path. */
  lemma WholeChainStep(t: Tables, id: string, depth: nat, now: real)
    requires WellFormed(t) && Registered(t, id)
    requires depth <= MAX_DELEGATION_DEPTH
    ensures EffectiveFrom(t, Some(id), depth, now) <==>
              && LinkActive(t, id, now)
              && EffectiveFrom(t, RowOf(t, id).capability.delegatedFrom, depth + 1, now)
  {
    var i := Find(t.capabilities, id);
    var c := t.capabilities[i].capability;
    assert ParentValidated(t.capabilities, i);
    if c.delegatedFrom.Some? {
      AllActiveStep(t, c, Ancestry(t, Find(t.capabilities, c.delegatedFrom.value)), now);
    } else {
      AllActiveStep(t, c, [], now);
    }
  }

  /** Every visited key stands later in the table than `id`. */
  ghost predicate Below(t: Tables, id: string, visited: set<string>) {
    forall v :: v in visited ==> Find(t.capabilities, id) < Find(t.capabilities, v)
  }

  lemma ParentBelow(t: Tables, id: string, visited: set<string>)
    requires WellFormed(t) && Registered(t, id) && Below(t, id, visited)
    ensures RowOf(t, id).capability.delegatedFrom.Some? ==>
              Below(t, RowOf(t, id).capability.delegatedFrom.value, visited + {id})
  {
    assert ParentValidated(t.capabilities, Find(t.capabilities, id));
  }

  // ----------------------------------------------------------------- the class

  class CapabilityRegistry {
    var capabilities: seq<CapabilityRow>
    var identities: map<string, IdentityRow>

    ghost function State(): Tables
      reads this
    {
      Tables(capabilities, identities)
    }

    ghost predicate Valid()
      reads this
    {
      WellFormed(State())
    }

    constructor ()
      ensures Valid() && State() == Tables([], map[])
    {
      capabilities, identities := [], map[];
    }

    /** `capability_is_active` together with `identity_is_active`. */
    method LinkIsActive(id: string, now: real) returns (active: bool)
      ensures active <==> LinkActive(State(), id, now)
    {
      var i := Find(capabilities, id);
      if i == |capabilities| || !Live(capabilities[i].status, capabilities[i].capability.expiresAt, now) {
        return false;
      }
      var bound := capabilities[i].capability.identityId;
      return bound.None? || (
        bound.value in identities
        && Live(identities[bound.value].status, identities[bound.value].identity.expiresAt, now));
    }

    /** Walks the chain towards the root. */
    method EffectiveActive(id: string, now: real) returns (active: bool)
      requires Valid()
      ensures active <==> Effective(State(), id, now)
    {
      ghost var t := State();
      var visited: set<string> := {};
      var current := Some(id);
      var depth := 0;
      while current.Some?
        invariant 0 <= depth <= MAX_DELEGATION_DEPTH + 1
        invariant Effective(t, id, now) <==> EffectiveFrom(t, current, depth, now)
        invariant current.Some? ==> Below(t, current.value, visited)
        decreases MAX_DELEGATION_DEPTH + 1 - depth, current
      {
        if current.value in visited {
          assert false;
          return false;
        }
        if depth > MAX_DELEGATION_DEPTH {
          return false;
        }
        var linked := LinkIsActive(current.value, now);
        if !linked {
          return false;
        }
        WholeChainStep(t, current.value, depth, now);
        ParentBelow(t, current.value, visited);
        visited := visited + {current.value};
        current := capabilities[Find(capabilities, current.value)].capability.delegatedFrom;
        depth := depth + 1;
      }
      return true;
    }

    method Register(c: Capability) returns (error: Option<RegistryError>)
      requires Valid()
      modifies this
      ensures Valid()
      ensures match RegisterSpec(old(State()), c)
              case Ok(t) => error == None && State() == t
              case Err(e) => error == Some(e) && State() == old(State())
    {
      if c.delegatedFrom.Some? {
        return Some(NotRoot);
      }
      if c.identityId.Some? {
        if c.identityId.value !in identities {
          return Some(IdentityNotFound);
        }
        if identities[c.identityId.value].identity.agentId != c.agentId {
          return Some(IdentityAgentMismatch);
        }
      }
      error := InsertRow(c);
    }

    method InsertRow(c: Capability) returns (error: Option<RegistryError>)
      requires Valid()
      requires c.identityId.Some? ==> c.identityId.value in identities
      requires c.delegatedFrom.Some? ==>
                 Registered(State(), c.delegatedFrom.value)
                 && ValidateDelegationScope(RowOf(State(), c.delegatedFrom.value).capability, c) == None
      modifies this
      ensures Valid()
      ensures match Insert(old(State()), c)
              case Ok(t) => error == None && State() == t
              case Err(e) => error == Some(e) && State() == old(State())
    {
      if Find(capabilities, c.capabilityId) < |capabilities| {
        return Some(AlreadyRegistered);
      }
      InsertKeepsWellFormed(State(), c);
      capabilities := capabilities + [CapabilityRow(c, Active)];
      error := None;
    }

    method Delegate(parentId: string, child: Capability, delegator: string, signatureOk: bool, now: real)
      returns (error: Option<RegistryError>)
      requires Valid()
      modifies this
      ensures Valid()
      ensures match DelegateSpec(old(State()), parentId, child, delegator, signatureOk, now)
              case Ok(t) => error == None && State() == t
              case Err(e) => error == Some(e) && State() == old(State())
    {
      var p := Find(capabilities, parentId);
      if p == |capabilities| {
        return Some(ParentNotFound);
      }
      var effective := EffectiveActive(parentId, now);
      if !effective {
        return Some(ParentNotEffective);
      }
      var parent := capabilities[p].capability;
      if delegator !in identities {
        return Some(DelegatorNotFound);
      }
      if !Live(identities[delegator].status, identities[delegator].identity.expiresAt, now) {
        return Some(DelegatorInactive);
      }
      if parent.identityId != Some(delegator) {
        return Some(NotOwner);
      }
      if child.identityId.None? {
        return Some(RecipientUnbound);
      }
      var recipient := child.identityId.value;
      if recipient !in identities {
        return Some(RecipientNotFound);
      }
      if !Live(identities[recipient].status, identities[recipient].identity.expiresAt, now) {
        return Some(RecipientInactive);
      }
      if identities[recipient].identity.agentId != child.agentId {
        return Some(RecipientAgentMismatch);
      }
      var scope := ValidateDelegationScope(parent, child);
      if scope.Some? {
        return Some(OutsideScope(scope.value));
      }
      if !signatureOk {
        return Some(BadSignature);
      }
      error := InsertRow(child);
    }

    method Revoke(id: string) returns (revoked: bool)
      requires Valid()
      modifies this
      ensures Valid() && State() == RevokeSpec(old(State()), id)
      ensures revoked <==> old(Registered(State(), id) && RowOf(State(), id).status == Active)
    {
      RevokeKeepsWellFormed(State(), id);
      var i := Find(capabilities, id);
      revoked := i < |capabilities| && capabilities[i].status == Active;
      if revoked {
        capabilities := capabilities[i := capabilities[i].(status := Revoked)];
      }
    }

    method RegisterIdentity(identity: Identity) returns (error: Option<RegistryError>)
      requires Valid()
      modifies this
      ensures Valid()
      ensures match RegisterIdentitySpec(old(State()), identity)
              case Ok(t) => error == None && State() == t
              case Err(e) => error == Some(e) && State() == old(State())
    {
      if identity.keyId in identities {
        return Some(AlreadyRegistered);
      }
      identities := identities[identity.keyId := IdentityRow(identity, Active)];
      error := None;
    }

    method RevokeIdentity(id: string) returns (revoked: bool)
      requires Valid()
      modifies this
      ensures Valid() && State() == RevokeIdentitySpec(old(State()), id)
      ensures revoked <==> old(id in identities && identities[id].status == Active)
    {
      revoked := id in identities && identities[id].status == Active;
      if revoked {
        identities := identities[id := identities[id].(status := Revoked)];
      }
    }

    /** The chain from root to leaf; the visited set never fires. */
    method AuthorityPath(id: string) returns (path: seq<Capability>)
      requires Valid()
      ensures Reverse(path) == PathUpwards(State(), Find(capabilities, id))
    {
      ghost var t := State();
      var visited: set<string> := {};
      var i: nat := Find(capabilities, id);
      var up: seq<Capability> := [];
      while i < |capabilities|
        invariant i <= |capabilities|
        invariant PathUpwards(t, Find(t.capabilities, id)) == up + PathUpwards(t, i)
        invariant i < |capabilities| ==> forall v :: v in visited ==> i < Find(t.capabilities, v)
        decreases if i < |capabilities| then i + 1 else 0
      {
        var c := capabilities[i].capability;
        if c.capabilityId in visited {
          assert false;
          break;
        }
        PathStep(t, i, up);
        visited := visited + {c.capabilityId};
        up := up + [c];
        if c.delegatedFrom.None? {
          i := |capabilities|;
        } else {
          i := Find(capabilities, c.delegatedFrom.value);
        }
      }
      path := Reverse(up);
      ReverseTwice(up);
    }
  }

  function Reverse<T>(s: seq<T>): seq<T> {
    seq(|s|, i requires 0 <= i < |s| => s[|s| - 1 - i])
  }

  lemma ReverseTwice<T>(s: seq<T>)
    ensures Reverse(Reverse(s)) == s
  {
  }
}
