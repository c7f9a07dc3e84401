/** Actions and capabilities (core/models.py), and exact money (core/money.py). */
module Models {
  import opened Common

  datatype AuthorityState = Probation | Limited | Standard | Elevated | Suspended

  /** A JSON value as it appears in declared contexts and context constraints. */
  datatype Value = Null | Text(text: string) | Items(items: seq<Value>)

  /** An amount that parsed as a finite, non-negative decimal. */
  type ExactAmount = r: real | r >= 0.0

  datatype ActionIntent = ActionIntent(
    intentId: string,
    agentId: string,
    actionType: string,
    target: string,
    resource: string,
    amount: Option<real>,
    amountExact: Option<ExactAmount>,
    asset: Option<string>,
    network: Option<string>,
    purpose: string,
    declaredContext: map<string, Value>,
    requestedCapability: Option<string>)

  datatype Capability = Capability(
    capabilityId: string,
    agentId: string,
    identityId: Option<string>,
    delegatedFrom: Option<string>,
    delegatedByIdentityId: Option<string>,
    delegationDepth: int,
    allowedActions: seq<string>,
    allowedPurposes: seq<string>,
    contextConstraints: map<string, Value>,
    allowedTargets: seq<string>,
    allowedResources: seq<string>,
    allowedNetworks: seq<string>,
    allowedAssets: seq<string>,
    maxPerAction: map<string, real>,
    aggregateLimits: map<string, real>,
    conditions: seq<string>,
    version: int,
    expiresAt: Option<real>)

  /** `exact_amount`: the exact field wins over the plain one. */
  function ExactAmountOf(a: ActionIntent): Option<real> {
    if a.amountExact.Some? then Some(a.amountExact.value) else a.amount
  }

  predicate IsValidAmount(amount: real) {
    amount >= 0.0
  }

  /** `amount > cap`; an invalid amount always exceeds. */
  predicate Exceeds(amount: real, cap: real) {
    !IsValidAmount(amount) || amount > cap
  }

  /** `action.asset or ""`. */
  function AssetKey(a: ActionIntent): string {
    a.asset.GetOr("")
  }

  function ContextValue(a: ActionIntent, key: string): Value {
    if key in a.declaredContext then a.declaredContext[key] else Null
  }

  /** A list admits its members, any other expectation admits only itself. */
  predicate Admits(expected: Value, actual: Value) {
    if expected.Items? then actual in expected.items else actual == expected
  }

  predicate ContextOutside(constraints: map<string, Value>, a: ActionIntent) {
    exists key :: key in constraints && !Admits(constraints[key], ContextValue(a, key))
  }

  predicate PurposeListed(purpose: string, listed: seq<string>) {
    exists p :: p in listed && Lower(p) == Lower(purpose)
  }

  /** An empty list places no restriction. */
  predicate Within(listed: seq<string>, name: Option<string>) {
    listed == [] || (name.Some? && name.value in listed)
  }

  datatype Denial =
    | AgentMismatch | CapabilityExpired | ActionTypeOutside | PurposeOutside | ContextOutsideCapability
    | TargetOutside | ResourceOutside | NetworkOutside | AssetOutside | LimitExceeded

  /** `Capability.permits`: the first failing check, in the order of the code. */
  function Permits(c: Capability, a: ActionIntent, now: real): Option<Denial> {
    if a.agentId != c.agentId then Some(AgentMismatch)
    else if c.expiresAt.Some? && now >= c.expiresAt.value then Some(CapabilityExpired)
    else if !Within(c.allowedActions, Some(a.actionType)) then Some(ActionTypeOutside)
    else if c.allowedPurposes != [] && !PurposeListed(a.purpose, c.allowedPurposes) then Some(PurposeOutside)
    else if ContextOutside(c.contextConstraints, a) then Some(ContextOutsideCapability)
    else if !Within(c.allowedTargets, Some(a.target)) then Some(TargetOutside)
    else if !Within(c.allowedResources, Some(a.resource)) then Some(ResourceOutside)
    else if !Within(c.allowedNetworks, a.network) then Some(NetworkOutside)
    else if !Within(c.allowedAssets, a.asset) then Some(AssetOutside)
    else if AssetKey(a) in c.maxPerAction
         && (ExactAmountOf(a).None? || Exceeds(ExactAmountOf(a).value, c.maxPerAction[AssetKey(a)]))
      then Some(LimitExceeded)
    else None
  }

  /** What a permitted action satisfies: the capability's agent, before its expiry, every
      name in its list where there is one, a purpose listed up to case, every constrained
      context key at an expected value, and for a limited asset an amount, the exact one
      first, between zero and the limit. */
  ghost predicate PermittedBy(c: Capability, a: ActionIntent, now: real) {
    && a.agentId == c.agentId
    && (c.expiresAt.Some? ==> now < c.expiresAt.value)
    && (c.allowedActions == [] || a.actionType in c.allowedActions)
    && (c.allowedPurposes == [] || exists p :: p in c.allowedPurposes && Lower(p) == Lower(a.purpose))
    && (forall key :: key in c.contextConstraints ==>
          var actual := if key in a.declaredContext then a.declaredContext[key] else Null;
          match c.contextConstraints[key]
          case Items(expected) => actual in expected
          case other => actual == other)
    && (c.allowedTargets == [] || a.target in c.allowedTargets)
    && (c.allowedResources == [] || a.resource in c.allowedResources)
    && (c.allowedNetworks == [] || (a.network.Some? && a.network.value in c.allowedNetworks))
    && (c.allowedAssets == [] || (a.asset.Some? && a.asset.value in c.allowedAssets))
    && var asset := if a.asset.Some? then a.asset.value else "";
       asset in c.maxPerAction ==>
         match a.amountExact
         case Some(exact) => exact <= c.maxPerAction[asset]
         case None => a.amount.Some? && 0.0 <= a.amount.value <= c.maxPerAction[asset]
  }

  lemma PermitsExactly(c: Capability, a: ActionIntent, now: real)
    ensures Permits(c, a, now) == None <==> PermittedBy(c, a, now)
  {
    if key :| key in c.contextConstraints && !Admits(c.contextConstraints[key], ContextValue(a, key)) {
      assert ContextOutside(c.contextConstraints, a);
    }
  }

  /** A denial names the first check that fails; a name outside its list, or a context
      value outside its constraint, is there. */
  lemma DenialNames(c: Capability, a: ActionIntent, now: real)
    requires Permits(c, a, now).Some?
    ensures var asset := if a.asset.Some? then a.asset.value else "";
            var own := a.agentId == c.agentId && (c.expiresAt.Some? ==> now < c.expiresAt.value);
            match Permits(c, a, now).value
            case AgentMismatch => a.agentId != c.agentId
            case CapabilityExpired => a.agentId == c.agentId && !own
            case ActionTypeOutside => own && c.allowedActions != [] && a.actionType !in c.allowedActions
            case PurposeOutside =>
              own && c.allowedPurposes != [] && forall p :: p in c.allowedPurposes ==> Lower(p) != Lower(a.purpose)
            case ContextOutsideCapability =>
              own && exists key :: key in c.contextConstraints
                                   && !Admits(c.contextConstraints[key], ContextValue(a, key))
            case TargetOutside => own && c.allowedTargets != [] && a.target !in c.allowedTargets
            case ResourceOutside => own && c.allowedResources != [] && a.resource !in c.allowedResources
            case NetworkOutside =>
              own && c.allowedNetworks != [] && (a.network.Some? ==> a.network.value !in c.allowedNetworks)
            case AssetOutside => own && c.allowedAssets != [] && (a.asset.Some? ==> a.asset.value !in c.allowedAssets)
            case LimitExceeded =>
              own && asset in c.maxPerAction
              && match a.amountExact
                 case Some(exact) => exact > c.maxPerAction[asset]
                 case None => a.amount.Some? ==> !(0.0 <= a.amount.value <= c.maxPerAction[asset])
  {
  }
}
