/** The signed effective ceiling (core/effective_authority.py), the guards of the
    control plane that mint it (core/engine.py, core/authority_state.py,
    core/authorization.py), and the check at the execution boundary. */
module EffectiveAuthority {
  import opened Common
  import opened Models
  import opened PlanAuthority
  import opened Delegation

  /** The policy fields an effective ceiling is built from. */
  datatype Policy = Policy(
    allowedActionTypes: Option<seq<string>>,
    allowedPurposes: Option<seq<string>>,
    allowedTargets: Option<seq<string>>,
    allowedNetworks: Option<seq<string>>,
    allowedAssets: Option<seq<string>>,
    contextConstraints: map<string, Value>,
    perTxCap: map<string, real>)

  datatype Effective = Effective(
    actionType: Option<seq<string>>,
    purpose: Option<seq<string>>,
    target: Option<seq<string>>,
    resource: seq<string>,
    network: Option<seq<string>>,
    asset: Option<seq<string>>,
    context: map<string, Value>,
    limits: map<string, real>)

  // ------------------------------------------------------------ intersections

  function Keep<T(==, !new)>(xs: seq<T>, ys: seq<T>): (r: seq<T>)
    ensures forall x :: x in r <==> x in xs && x in ys
  {
    if xs == [] then []
    else (if xs[0] in ys then [xs[0]] else []) + Keep(xs[1..], ys)
  }

  function Intersect(parent: seq<string>, policy: Option<seq<string>>): Option<seq<string>> {
    if parent != [] && policy.Some? then Some(Keep(parent, policy.value))
    else if parent != [] then Some(parent)
    else policy
  }

  function MeetValue(cap: Value, pol: Value): Value {
    if cap.Items? && pol.Items? then Items(Keep(cap.items, pol.items))
    else if cap.Items? then Items(Keep(cap.items, [pol]))
    else if pol.Items? then Items(if cap in pol.items then [cap] else [])
    else if cap == pol then cap
    else Items([])
  }

  function ContextMeet(cap: map<string, Value>, pol: map<string, Value>): map<string, Value> {
    map key | key in cap.Keys + pol.Keys :: MeetAt(cap, pol, key)
  }

  function MeetAt(cap: map<string, Value>, pol: map<string, Value>, key: string): Value
    requires key in cap || key in pol
  {
    if key !in cap then pol[key] else if key !in pol then cap[key] else MeetValue(cap[key], pol[key])
  }

  /** `_context_intersection`, filling the result key by key. */
  method ContextIntersection(cap: map<string, Value>, pol: map<string, Value>) returns (result: map<string, Value>)
    ensures result == ContextMeet(cap, pol)
  {
    result := map[];
    var keys := cap.Keys + pol.Keys;
    var todo := keys;
    while todo != {}
      invariant todo <= keys && result.Keys == keys - todo
      invariant forall key :: key in result ==> result[key] == MeetAt(cap, pol, key)
      decreases todo
    {
      var key :| key in todo;
      todo := todo - {key};
      result := result[key := MeetAt(cap, pol, key)];
    }
  }

  function EffectiveCeiling(c: Capability, policy: Policy, multiplier: real): Effective {
    Effective(
      Intersect(c.allowedActions, policy.allowedActionTypes),
      Intersect(c.allowedPurposes, policy.allowedPurposes),
      Intersect(c.allowedTargets, policy.allowedTargets),
      c.allowedResources,
      Intersect(c.allowedNetworks, policy.allowedNetworks),
      Intersect(c.allowedAssets, policy.allowedAssets),
      ContextMeet(c.contextConstraints, policy.contextConstraints),
      map asset | asset in c.maxPerAction :: LimitFor(c.maxPerAction[asset], policy.perTxCap, asset, multiplier))
  }

  function LimitFor(limit: real, caps: map<string, real>, asset: string, multiplier: real): real {
    MinReal(MinReal(limit, if asset in caps then caps[asset] else limit), limit * multiplier)
  }

  // ------------------------------------------------------ the boundary's check

  datatype GateError = OutsideList | OutsidePurpose | OutsideContext | AmountMissing | AmountTooLarge

  /** `None` and the empty list are both falsy: neither restricts. */
  predicate ListAccepts(allowed: Option<seq<string>>, name: Option<string>) {
    allowed.None? || Within(allowed.value, name)
  }

  predicate PurposeAccepts(allowed: Option<seq<string>>, purpose: string) {
    allowed.None? || allowed.value == [] || PurposeListed(purpose, allowed.value)
  }

  function VerifyEffectiveAction(a: ActionIntent, e: Effective): Option<GateError> {
    if !(ListAccepts(e.actionType, Some(a.actionType)) && ListAccepts(e.target, Some(a.target))
         && Within(e.resource, Some(a.resource)) && ListAccepts(e.network, a.network)
         && ListAccepts(e.asset, a.asset)) then Some(OutsideList)
    else if !PurposeAccepts(e.purpose, a.purpose) then Some(OutsidePurpose)
    else if ContextOutside(e.context, a) then Some(OutsideContext)
    else if a.asset.Some? && a.asset.value in e.limits then
      if a.amount.None? then Some(AmountMissing)
      else if a.amount.value > e.limits[a.asset.value] then Some(AmountTooLarge)
      else None
    else None
  }

  // ---------------------------------------------------- what intersection means

  /** The capability's own reading of a list, and the policy's. */
  predicate BothAccept(parent: seq<string>, policy: Option<seq<string>>, name: Option<string>) {
    Within(parent, name) && (policy.None? || (name.Some? && name.value in policy.value))
  }

  /** The policy list shares nothing with the capability list; an empty
      capability list stands for every name. */
  predicate NothingShared(parent: seq<string>, policy: Option<seq<string>>) {
    policy.Some? && if parent == [] then policy.value == [] else forall x :: x in parent ==> x !in policy.value
  }

  /** Name lists, exactly: the boundary accepts what both accept, and when the
      lists share nothing it accepts everything. */
  lemma ListIntersectionExact(parent: seq<string>, policy: Option<seq<string>>, name: Option<string>)
    ensures ListAccepts(Intersect(parent, policy), name) <==>
              BothAccept(parent, policy, name) || NothingShared(parent, policy)
  {
    if parent != [] && policy.Some? {
      var kept := Keep(parent, policy.value);
      if kept == [] {
        forall x | x in parent ensures x !in policy.value {
          assert x !in kept;
        }
      } else {
        assert kept[0] in kept;
      }
    }
  }

  /** Purposes are compared folding case but intersected case-exactly. The lists fit
      together when they share a purpose, and whatever they share up to case they
      share, up to case, exactly. */
  predicate CaseFits(parent: seq<string>, policy: seq<string>) {
    if parent == [] then policy != []
    else
      && (exists z :: z in parent && z in policy)
      && (forall x :: x in parent && PurposeListed(x, policy) ==> PurposeListed(x, Keep(parent, policy)))
  }

  ghost predicate AgreesWithBoth(parent: seq<string>, policy: seq<string>, purpose: string) {
    PurposeAccepts(Intersect(parent, Some(policy)), purpose) <==>
      (parent == [] || PurposeListed(purpose, parent)) && PurposeListed(purpose, policy)
  }

  /** The boundary accepts, for every purpose, exactly what both sides accept if and
      only if the lists fit together. */
  lemma PurposeIntersectionExactly(parent: seq<string>, policy: seq<string>)
    ensures (forall purpose :: AgreesWithBoth(parent, policy, purpose)) <==> CaseFits(parent, policy)
  {
    if CaseFits(parent, policy) {
      forall purpose ensures AgreesWithBoth(parent, policy, purpose) {
        FittingListsAgree(parent, policy, purpose);
      }
    } else {
      var purpose := MisfitPurpose(parent, policy);
      assert !AgreesWithBoth(parent, policy, purpose);
    }
  }

  lemma FittingListsAgree(parent: seq<string>, policy: seq<string>, purpose: string)
    requires CaseFits(parent, policy)
    ensures AgreesWithBoth(parent, policy, purpose)
  {
    var kept := Keep(parent, policy);
    if parent != [] {
      var z :| z in parent && z in policy;
      assert z in kept && kept != [];
      if PurposeListed(purpose, parent) && PurposeListed(purpose, policy) {
        var x :| x in parent && Lower(x) == Lower(purpose);
        assert PurposeListed(x, policy);
        assert PurposeListed(x, kept);
      }
    }
  }

  /** A purpose on which the boundary and the two sides differ. */
  lemma MisfitPurpose(parent: seq<string>, policy: seq<string>) returns (purpose: string)
    requires !CaseFits(parent, policy)
    ensures !AgreesWithBoth(parent, policy, purpose)
  {
    var kept := Keep(parent, policy);
    if kept == [] {
      purpose := Unlisted(parent + policy);
      forall y | y in policy ensures Lower(y) != Lower(purpose) {
        assert y in parent + policy;
      }
    } else {
      assert kept[0] in kept;
      purpose :| purpose in parent && PurposeListed(purpose, policy) && !PurposeListed(purpose, kept);
      assert PurposeListed(purpose, parent);
    }
  }

  /** Some string lies outside every list, whatever the case. */
  lemma {:induction false} Unlisted(listed: seq<string>) returns (name: string)
    ensures !PurposeListed(name, listed)
    ensures forall x :: x in listed ==> |name| > |x|
  {
    if listed == [] {
      name := "";
    } else {
      var front, x := listed[..|listed| - 1], Last(listed);
      var shorter := Unlisted(front);
      assert listed == front + [x];
      name := shorter + x + "x";
      forall y | y in listed ensures |name| > |y| && Lower(y) != Lower(name) {
        assert |Lower(y)| == |y| && |Lower(name)| == |name|;
      }
    }
  }

  /** Both directions can fail: a purpose both sides accept is
      refused, or one neither side accepts is let through. */
  lemma PurposeCaseMatters()
    ensures PurposeListed("pay", ["Pay", "x"]) && PurposeListed("pay", ["pay", "x"])
    ensures !PurposeAccepts(Intersect(["Pay", "x"], Some(["pay", "x"])), "pay")
    ensures !PurposeListed("sell", ["Pay"]) && !PurposeListed("sell", ["pay"])
    ensures PurposeAccepts(Intersect(["Pay"], Some(["pay"])), "sell")
  {
    assert Lower("Pay") == "pay" && Lower("pay") == "pay" && Lower("x") == "x" && Lower("sell") == "sell";
    assert "Pay"[0] == 'P';
    assert "pay"[0] == 'p';
    var kept := Keep(["Pay", "x"], ["pay", "x"]);
    assert "x" in kept && "Pay" !in kept;
    var none := Keep(["Pay"], ["pay"]);
    assert forall x :: x !in none;
  }

  lemma MeetValueExact(cap: Value, pol: Value, actual: Value)
    ensures Admits(MeetValue(cap, pol), actual) <==> Admits(cap, actual) && Admits(pol, actual)
  {
  }

  /** Context constraints: the boundary accepts exactly what the capability and
      the policy both accept. */
  lemma ContextIntersectionExact(c: Capability, policy: Policy, multiplier: real, a: ActionIntent)
    ensures ContextOutside(EffectiveCeiling(c, policy, multiplier).context, a) <==>
              ContextOutside(c.contextConstraints, a) || ContextOutside(policy.contextConstraints, a)
  {
    var cap, pol := c.contextConstraints, policy.contextConstraints;
    var meet := ContextMeet(cap, pol);
    forall key | key in cap && key in pol
      ensures Admits(meet[key], ContextValue(a, key)) <==>
                Admits(cap[key], ContextValue(a, key)) && Admits(pol[key], ContextValue(a, key))
    {
      MeetValueExact(cap[key], pol[key], ContextValue(a, key));
    }
    if key :| key in meet && !Admits(meet[key], ContextValue(a, key)) {
      assert key in cap || key in pol;
    } else {
      forall key | key in cap ensures Admits(cap[key], ContextValue(a, key)) {
        assert key in meet;
      }
      forall key | key in pol ensures Admits(pol[key], ContextValue(a, key)) {
        assert key in meet;
      }
    }
  }

  predicate ListMeets(parent: seq<string>, policy: Option<seq<string>>, name: Option<string>) {
    BothAccept(parent, policy, name) || NothingShared(parent, policy)
  }

  /** The whole boundary check under a minted ceiling, exactly: every name lies in
      both lists (or those share nothing), the resource in the capability's list,
      the context inside both sets of constraints, and the plain amount under the
      capability limit, the policy cap and the multiplied limit of its asset. */
  lemma BoundaryExactly(c: Capability, policy: Policy, multiplier: real, a: ActionIntent)
    ensures VerifyEffectiveAction(a, EffectiveCeiling(c, policy, multiplier)) == None <==>
              && ListMeets(c.allowedActions, policy.allowedActionTypes, Some(a.actionType))
              && ListMeets(c.allowedTargets, policy.allowedTargets, Some(a.target))
              && ListMeets(c.allowedNetworks, policy.allowedNetworks, a.network)
              && ListMeets(c.allowedAssets, policy.allowedAssets, a.asset)
              && Within(c.allowedResources, Some(a.resource))
              && PurposeAccepts(Intersect(c.allowedPurposes, policy.allowedPurposes), a.purpose)
              && !ContextOutside(c.contextConstraints, a) && !ContextOutside(policy.contextConstraints, a)
              && (a.asset.Some? && a.asset.value in c.maxPerAction ==>
                    && a.amount.Some?
                    && a.amount.value <= c.maxPerAction[a.asset.value]
                    && a.amount.value <= c.maxPerAction[a.asset.value] * multiplier
                    && (a.asset.value in policy.perTxCap ==> a.amount.value <= policy.perTxCap[a.asset.value]))
  {
    var e := EffectiveCeiling(c, policy, multiplier);
    ListIntersectionExact(c.allowedActions, policy.allowedActionTypes, Some(a.actionType));
    ListIntersectionExact(c.allowedTargets, policy.allowedTargets, Some(a.target));
    ListIntersectionExact(c.allowedNetworks, policy.allowedNetworks, a.network);
    ListIntersectionExact(c.allowedAssets, policy.allowedAssets, a.asset);
    ContextIntersectionExact(c, policy, multiplier, a);
    if a.asset.Some? && a.asset.value in c.maxPerAction {
      assert e.limits[a.asset.value] == LimitFor(c.maxPerAction[a.asset.value], policy.perTxCap, a.asset.value,
                                                 multiplier);
    } else {
      assert a.asset.Some? ==> a.asset.value !in e.limits;
    }
  }

  /** What the boundary names is wrong. */
  lemma BoundaryRefusalNames(a: ActionIntent, e: Effective)
    ensures match VerifyEffectiveAction(a, e)
            case None => true
            case Some(OutsideList) =>
              !(ListAccepts(e.actionType, Some(a.actionType)) && ListAccepts(e.target, Some(a.target))
                && ListAccepts(Some(e.resource), Some(a.resource)) && ListAccepts(e.network, a.network)
                && ListAccepts(e.asset, a.asset))
            case Some(OutsidePurpose) =>
              e.purpose.Some? && e.purpose.value != []
              && forall p :: p in e.purpose.value ==> Lower(p) != Lower(a.purpose)
            case Some(OutsideContext) =>
              exists key :: key in e.context && !Admits(e.context[key], ContextValue(a, key))
            case Some(AmountMissing) => a.amount == None && a.asset.Some? && a.asset.value in e.limits
            case Some(AmountTooLarge) =>
              a.amount.Some? && a.asset.Some? && a.asset.value in e.limits && a.amount.value > e.limits[a.asset.value]
  {
  }

  // ------------------------------------------------------------------- minting

  datatype MintError = CapabilityDenied(denial: Denial) | SuspendedAuthority | NeedsElevated
                     | DynamicLimit | NotEligible | NoMultiplier

  /** `DynamicAuthorityService.assert_action` once the snapshot is taken. */
  function AssertAction(c: Capability, a: ActionIntent, state: AuthorityState, multiplier: real,
                        elevatedOnly: seq<string>): Option<MintError>
  {
    if state == Suspended then Some(SuspendedAuthority)
    else if a.actionType in elevatedOnly && state != Elevated then Some(NeedsElevated)
    else if a.amount.Some? && AssetKey(a) in c.maxPerAction
         && a.amount.value > c.maxPerAction[AssetKey(a)] * multiplier then Some(DynamicLimit)
    else None
  }

  /** The single-action plan the control plane assesses for identity-bound
      capabilities. */
  function SingleActionPlan(a: ActionIntent): PlanGraph {
    IntentGraphs.Graph([IntentGraphs.Node(a.intentId, IntentGraphs.Action, Some(a))], [])
  }

  /** The guards an allowed action passes before an authorization is signed. */
  function Mint(c: Capability, policy: Policy, a: ActionIntent, state: AuthorityState, multiplier: real,
                elevatedOnly: seq<string>, now: real): Result<Effective, MintError>
  {
    if Permits(c, a, now).Some? then Err(CapabilityDenied(Permits(c, a, now).value))
    else if AssertAction(c, a, state, multiplier, elevatedOnly).Some? then
      Err(AssertAction(c, a, state, multiplier, elevatedOnly).value)
    else if c.identityId.Some? && !AssessedEligible(c, a, state, multiplier, now) then Err(NotEligible)
    else if multiplier <= 0.0 then Err(NoMultiplier)
    else Ok(EffectiveCeiling(c, policy, multiplier))
  }

  predicate AssessedEligible(c: Capability, a: ActionIntent, state: AuthorityState, multiplier: real, now: real) {
    var authority := Authority(a.agentId, c.capabilityId, state, multiplier);
    var r := Assess(SingleActionPlan(a), authority, c, now, a.intentId, {});
    r.Ok? && r.value.status == Eligible
  }

  /** An authorization is minted for the action and the boundary accepts it. */
  predicate Authorized(c: Capability, policy: Policy, a: ActionIntent, state: AuthorityState, multiplier: real,
                       elevatedOnly: seq<string>, now: real)
  {
    var m := Mint(c, policy, a, state, multiplier, elevatedOnly, now);
    m.Ok? && VerifyEffectiveAction(a, m.value) == None
  }

  /** For which actions an authorization is minted: the capability permits them, the
      authority is not suspended, elevated-only actions have an elevated one, the plain
      amount of a limited asset is under the multiplied limit, the multiplier is positive,
      and, when the capability is bound to an identity, the single-action plan is cleared
      under the same authority, exact amount included. */
  lemma MintsExactly(c: Capability, policy: Policy, a: ActionIntent, state: AuthorityState, multiplier: real,
                     elevatedOnly: seq<string>, now: real)
    ensures var asset := if a.asset.Some? then a.asset.value else "";
            Mint(c, policy, a, state, multiplier, elevatedOnly, now).Ok? <==>
              && PermittedBy(c, a, now)
              && state != Suspended && (a.actionType in elevatedOnly ==> state == Elevated)
              && (a.amount.Some? && asset in c.maxPerAction ==> a.amount.value <= c.maxPerAction[asset] * multiplier)
              && multiplier > 0.0
              && (c.identityId.Some? ==> Cleared(Authority(a.agentId, c.capabilityId, state, multiplier), c, a, now))
  {
    PermitsExactly(c, a, now);
    AssessedExactly(c, a, state, multiplier, now);
  }

  /** What a refused minting names is wrong. */
  lemma MintRefusalNames(c: Capability, policy: Policy, a: ActionIntent, state: AuthorityState, multiplier: real,
                         elevatedOnly: seq<string>, now: real)
    requires Mint(c, policy, a, state, multiplier, elevatedOnly, now).Err?
    ensures match Mint(c, policy, a, state, multiplier, elevatedOnly, now).error
            case CapabilityDenied(denial) => !PermittedBy(c, a, now) && Permits(c, a, now) == Some(denial)
            case SuspendedAuthority => PermittedBy(c, a, now) && state == Suspended
            case NeedsElevated => state != Suspended && state != Elevated && a.actionType in elevatedOnly
            case DynamicLimit =>
              var asset := if a.asset.Some? then a.asset.value else "";
              state != Suspended && a.amount.Some? && asset in c.maxPerAction
              && a.amount.value > c.maxPerAction[asset] * multiplier
            case NotEligible =>
              c.identityId.Some? && !Cleared(Authority(a.agentId, c.capabilityId, state, multiplier), c, a, now)
            case NoMultiplier => PermittedBy(c, a, now) && multiplier <= 0.0
  {
    PermitsExactly(c, a, now);
    AssessedExactly(c, a, state, multiplier, now);
  }

  lemma AssessedExactly(c: Capability, a: ActionIntent, state: AuthorityState, multiplier: real, now: real)
    ensures AssessedEligible(c, a, state, multiplier, now) <==>
              Cleared(Authority(a.agentId, c.capabilityId, state, multiplier), c, a, now)
  {
    var authority, g := Authority(a.agentId, c.capabilityId, state, multiplier), SingleActionPlan(a);
    EligibleStep(g, authority, c, now, a.intentId, {});
    assert g.edges == [] && FirstNode(g, a.intentId, 0);
    assert forall i :: FirstNode(g, a.intentId, i) ==> i == 0;
  }

  lemma AuthorizedAmount(c: Capability, policy: Policy, a: ActionIntent, state: AuthorityState,
                         multiplier: real, elevatedOnly: seq<string>, now: real, asset: string)
    requires Authorized(c, policy, a, state, multiplier, elevatedOnly, now)
    requires a.asset == Some(asset) && asset in c.maxPerAction
    ensures a.amount.Some?
    ensures a.amount.value <= LimitFor(c.maxPerAction[asset], policy.perTxCap, asset, multiplier)
  {
    assert EffectiveCeiling(c, policy, multiplier).limits[asset]
        == LimitFor(c.maxPerAction[asset], policy.perTxCap, asset, multiplier);
  }

  /** End to end: the amount that reaches execution is at most the multiplier
      times the capability's limit, that limit itself, the policy's cap for that
      exact asset, and the limit of every ancestor that names the asset. */
  lemma EndToEndCeiling(t: Tables, i: nat, policy: Policy, a: ActionIntent, state: AuthorityState,
                        multiplier: real, elevatedOnly: seq<string>, now: real, asset: string)
    requires WellFormed(t) && i < |t.capabilities|
    requires Authorized(t.capabilities[i].capability, policy, a, state, multiplier, elevatedOnly, now)
    requires a.asset == Some(asset) && asset in t.capabilities[i].capability.maxPerAction
    ensures a.amount.Some?
    ensures a.amount.value <= multiplier * t.capabilities[i].capability.maxPerAction[asset]
    ensures a.amount.value <= t.capabilities[i].capability.maxPerAction[asset]
    ensures asset in policy.perTxCap ==> a.amount.value <= policy.perTxCap[asset]
    ensures forall k :: 0 <= k < |Ancestry(t, i)| && asset in Ancestry(t, i)[k].maxPerAction ==>
              a.amount.value <= Ancestry(t, i)[k].maxPerAction[asset]
  {
    var c := t.capabilities[i].capability;
    AuthorizedAmount(c, policy, a, state, multiplier, elevatedOnly, now, asset);
    forall k | 0 <= k < |Ancestry(t, i)| && asset in Ancestry(t, i)[k].maxPerAction
      ensures a.amount.value <= Ancestry(t, i)[k].maxPerAction[asset]
    {
      RegisteredLimitsShrink(t, i, k, asset);
    }
  }

  /** Nothing executes beyond any ancestor: what is authorized under a registered
      capability, its own agent aside, every capability up to the root permits at
      the same time; and it never runs suspended, nor an elevated-only action in a
      lower state. */
  lemma AuthorizedUpTheChain(t: Tables, i: nat, k: nat, policy: Policy, a: ActionIntent, state: AuthorityState,
                             multiplier: real, elevatedOnly: seq<string>, now: real)
    requires WellFormed(t) && i < |t.capabilities| && k < |Ancestry(t, i)|
    requires Authorized(t.capabilities[i].capability, policy, a, state, multiplier, elevatedOnly, now)
    ensures Permits(Ancestry(t, i)[k], a.(agentId := Ancestry(t, i)[k].agentId), now) == None
    ensures state != Suspended && multiplier > 0.0
    ensures a.actionType in elevatedOnly ==> state == Elevated
  {
    RegisteredAttenuates(t, i, k, a, now);
  }

  lemma FractionShrinks(limit: real, factor: real)
    requires limit >= 0.0 && factor <= 1.0
    ensures limit * factor <= limit
  {
  }

  lemma LimitWithoutCap(limit: real, caps: map<string, real>, asset: string, factor: real)
    requires limit >= 0.0 && factor <= 1.0 && asset !in caps
    ensures LimitFor(limit, caps, asset, factor) == limit * factor
  {
    FractionShrinks(limit, factor);
  }

  /** The three dynamic checks draw the same line. */
  lemma DynamicChecksAgree(c: Capability, policy: Policy, a: ActionIntent, state: AuthorityState, multiplier: real,
                           asset: string)
    requires a.asset == Some(asset) && asset in c.maxPerAction && asset !in policy.perTxCap
    requires a.amount.Some? && a.amount.value >= 0.0
    requires c.maxPerAction[asset] >= 0.0 && 0.0 <= multiplier <= 1.0
    requires state != Suspended
    ensures AssertAction(c, a, state, multiplier, []) == None
       <==> CeilingAllows(c.maxPerAction[asset], multiplier, a.amount.value)
    ensures CeilingAllows(c.maxPerAction[asset], multiplier, a.amount.value)
       <==> a.amount.value <= EffectiveCeiling(c, policy, multiplier).limits[asset]
  {
    LimitWithoutCap(c.maxPerAction[asset], policy.perTxCap, asset, multiplier);
    assert EffectiveCeiling(c, policy, multiplier).limits[asset] == c.maxPerAction[asset] * multiplier;
  }

  /** The exact amount of an identity-bound action is under the same dynamic
      ceiling, and so is every action that carries no separate exact amount. */
  lemma ExactAmountCeiling(c: Capability, policy: Policy, a: ActionIntent, state: AuthorityState,
                           multiplier: real, elevatedOnly: seq<string>, now: real, asset: string)
    requires Authorized(c, policy, a, state, multiplier, elevatedOnly, now)
    requires a.asset == Some(asset) && asset in c.maxPerAction
    requires c.identityId.Some? || a.amountExact.None?
    ensures ExactAmountOf(a).Some? && ExactAmountOf(a).value <= multiplier * c.maxPerAction[asset]
  {
    if c.identityId.Some? {
      var authority := Authority(a.agentId, c.capabilityId, state, multiplier);
      var g := SingleActionPlan(a);
      EligibleStep(g, authority, c, now, a.intentId, {});
      assert Lookup(g.nodes, a.intentId) == Some(g.nodes[0]);
    }
  }

  function WithExact(a: ActionIntent, exact: ExactAmount): ActionIntent {
    a.(amountExact := Some(exact))
  }

  /** Whatever exact amount the action carries, it is authorized only up to
      `ceiling`. */
  ghost predicate ExactStaysUnder(c: Capability, policy: Policy, a: ActionIntent, state: AuthorityState,
                                  multiplier: real,
                                  elevatedOnly: seq<string>, now: real, ceiling: real)
  {
    forall exact: ExactAmount {:trigger WithExact(a, exact)} ::
      Authorized(c, policy, WithExact(a, exact), state, multiplier, elevatedOnly, now) ==> exact <= ceiling
  }

  /** Exactly when the dynamic ceiling holds for the exact amount as well: the
      capability is bound to an identity, or the multiplier does not lower the
      limit. */
  lemma ExactAmountSafeExactly(c: Capability, policy: Policy, a: ActionIntent, state: AuthorityState, multiplier: real,
                               elevatedOnly: seq<string>, now: real, asset: string, ceiling: real)
    requires Authorized(c, policy, a, state, multiplier, elevatedOnly, now)
    requires a.asset == Some(asset) && asset in c.maxPerAction
    requires ceiling == multiplier * c.maxPerAction[asset]
    ensures ExactStaysUnder(c, policy, a, state, multiplier, elevatedOnly, now, ceiling)
            <==> c.identityId.Some? || c.maxPerAction[asset] <= ceiling
  {
    if c.identityId.Some? || c.maxPerAction[asset] <= ceiling {
      SafeExact(c, policy, a, state, multiplier, elevatedOnly, now, asset, ceiling);
    } else {
      UnsafeExact(c, policy, a, state, multiplier, elevatedOnly, now, asset, ceiling);
    }
  }

  lemma SafeExact(c: Capability, policy: Policy, a: ActionIntent, state: AuthorityState, multiplier: real,
                  elevatedOnly: seq<string>, now: real, asset: string, ceiling: real)
    requires a.asset == Some(asset) && asset in c.maxPerAction && ceiling == multiplier * c.maxPerAction[asset]
    requires c.identityId.Some? || c.maxPerAction[asset] <= ceiling
    ensures ExactStaysUnder(c, policy, a, state, multiplier, elevatedOnly, now, ceiling)
  {
    forall exact: ExactAmount | Authorized(c, policy, WithExact(a, exact), state, multiplier, elevatedOnly, now)
      ensures exact <= ceiling
    {
      ExactUnderCeiling(c, policy, a, state, multiplier, elevatedOnly, now, asset, exact);
    }
  }

  /** The static limit itself is then an exact amount above the ceiling. */
  lemma UnsafeExact(c: Capability, policy: Policy, a: ActionIntent, state: AuthorityState, multiplier: real,
                    elevatedOnly: seq<string>, now: real, asset: string, ceiling: real)
    requires Authorized(c, policy, a, state, multiplier, elevatedOnly, now)
    requires a.asset == Some(asset) && asset in c.maxPerAction
    requires c.identityId.None? && c.maxPerAction[asset] > ceiling
    ensures !ExactStaysUnder(c, policy, a, state, multiplier, elevatedOnly, now, ceiling)
  {
    assert Permits(c, a, now) == None;
    var limit: ExactAmount := c.maxPerAction[asset];
    ExactAmountUnseen(c, policy, a, state, multiplier, elevatedOnly, now, asset, limit);
    assert Authorized(c, policy, WithExact(a, limit), state, multiplier, elevatedOnly, now);
  }

  lemma ExactUnderCeiling(c: Capability, policy: Policy, a: ActionIntent, state: AuthorityState, multiplier: real,
                          elevatedOnly: seq<string>, now: real, asset: string, exact: ExactAmount)
    requires Authorized(c, policy, WithExact(a, exact), state, multiplier, elevatedOnly, now)
    requires a.asset == Some(asset) && asset in c.maxPerAction
    requires c.identityId.Some? || c.maxPerAction[asset] <= multiplier * c.maxPerAction[asset]
    ensures exact <= multiplier * c.maxPerAction[asset]
  {
    if c.identityId.Some? {
      ExactAmountCeiling(c, policy, WithExact(a, exact), state, multiplier, elevatedOnly, now, asset);
    } else {
      ExactUnderStaticLimit(c, policy, a, state, multiplier, elevatedOnly, now, asset, exact);
    }
  }

  lemma ExactUnderStaticLimit(c: Capability, policy: Policy, a: ActionIntent, state: AuthorityState, multiplier: real,
                              elevatedOnly: seq<string>, now: real, asset: string, exact: ExactAmount)
    requires Authorized(c, policy, WithExact(a, exact), state, multiplier, elevatedOnly, now)
    requires a.asset == Some(asset) && asset in c.maxPerAction
    ensures exact <= c.maxPerAction[asset]
  {
    assert Permits(c, WithExact(a, exact), now) == None;
  }

  const UNBOUND := Capability("cap", "agent", None, None, None, 0, [], [], map[], [], [], [], [], map["USDC" := 10.0],
                              map[], [], 1, None)

  const OPEN_POLICY := Policy(None, None, None, None, None, map[], map[])

  const TEN_EXACT := ActionIntent("i", "agent", "payment", "shop", "", Some(1.0), Some(10.0), Some("USDC"), None, "",
                                  map[], None)

  /** An action that is authorized on probation although its exact amount is ten
      times the dynamic ceiling. */
  lemma ExactAmountExceeds()
    ensures Authorized(UNBOUND, OPEN_POLICY, TEN_EXACT, Probation, 0.1, [], 0.0)
    ensures ExactAmountOf(TEN_EXACT) == Some(10.0) && 10.0 > 0.1 * UNBOUND.maxPerAction["USDC"]
  {
    var e := EffectiveCeiling(UNBOUND, OPEN_POLICY, 0.1);
    assert e.limits["USDC"] == LimitFor(10.0, map[], "USDC", 0.1) == 1.0;
    assert e.context == map[];
  }

  /** Outside that condition the dynamic ceiling does not see the exact amount:
      without a bound identity any exact amount up to the static limit passes
      wherever the plain amount did. */
  lemma ExactAmountUnseen(c: Capability, policy: Policy, a: ActionIntent, state: AuthorityState, multiplier: real,
                          elevatedOnly: seq<string>, now: real, asset: string, exact: ExactAmount)
    requires Authorized(c, policy, a, state, multiplier, elevatedOnly, now)
    requires a.asset == Some(asset) && asset in c.maxPerAction
    requires c.identityId.None? && exact <= c.maxPerAction[asset]
    ensures Authorized(c, policy, WithExact(a, exact), state, multiplier, elevatedOnly, now)
  {
    var b := WithExact(a, exact);
    assert forall key :: ContextValue(b, key) == ContextValue(a, key);
    assert ContextOutside(c.contextConstraints, b) == ContextOutside(c.contextConstraints, a);
    var e := EffectiveCeiling(c, policy, multiplier);
    assert ContextOutside(e.context, b) == ContextOutside(e.context, a);
  }
}
