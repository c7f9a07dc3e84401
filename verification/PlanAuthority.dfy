/** Eligibility of a plan's actions under one exact authority and capability
    (core/authority_intent_graph.py), on graphs that may be cyclic. */
module PlanAuthority {
  import opened Common
  import opened Models
  import opened IntentGraphs

  /** The fields of `Authority` that an assessment reads. */
  datatype Authority = Authority(agentId: string, capabilityId: string, state: AuthorityState, multiplier: real)

  /** The payload of an ACTION node is its action intent, when it has one. */
  type PlanGraph = Graph<Option<ActionIntent>>

  type PlanNode = Node<Option<ActionIntent>>

  datatype Status = Eligible | Blocked

  datatype Reason =
    | CycleFound
    | DependencyBlocked(id: string)
    | AuthoritySuspended
    | AgentDiffers
    | CapabilityDiffers
    | NotPermitted(denial: Denial)
    | CeilingExceeded
    | WithinAuthority

  datatype Assessment = Assessment(
    nodeId: string, status: Status, reason: Reason, dependencies: seq<(string, Status)>)

  datatype PlanError = UnknownNodeId(id: string) | NotAnAction(id: string) | NoActionPayload(id: string)

  /** `authority_ceiling_allows` on exact numbers. */
  predicate CeilingAllows(limit: real, factor: real, requested: real) {
    limit >= 0.0 && 0.0 <= factor <= 1.0 && requested >= 0.0 && requested <= limit * factor
  }

  /** The ceiling lets no amount through beyond the limit, whatever the factor. */
  lemma CeilingBounds(limit: real, factor: real, requested: real)
    ensures CeilingAllows(limit, factor, requested) ==> 0.0 <= requested <= limit * factor <= limit && factor <= 1.0
  {
    if limit >= 0.0 && factor <= 1.0 {
      assert limit * factor <= limit * 1.0;
    }
  }

  /** The first node with this id. */
  function Lookup(nodes: seq<PlanNode>, id: string): (r: Option<PlanNode>)
    ensures r.Some? ==> r.value in nodes && r.value.id == id
    ensures r.None? ==> forall n :: n in nodes ==> n.id != id
  {
    if nodes == [] then None
    else if nodes[0].id == id then Some(nodes[0])
    else Lookup(nodes[1..], id)
  }

  function ActionAt(g: PlanGraph, id: string): Result<ActionIntent, PlanError> {
    match Lookup(g.nodes, id)
    case None => Err(UnknownNodeId(id))
    case Some(n) =>
      if n.kind != Action then Err(NotAnAction(id))
      else if n.payload.None? then Err(NoActionPayload(id))
      else Ok(n.payload.value)
  }

  /** The checks on the action alone, in the order of the code. */
  function LocalObstacle(authority: Authority, c: Capability, a: ActionIntent, now: real): Option<Reason> {
    if authority.state == Suspended then Some(AuthoritySuspended)
    else if a.agentId != authority.agentId then Some(AgentDiffers)
    else if a.requestedCapability.GetOr("") != "" && a.requestedCapability.value != authority.capabilityId
      then Some(CapabilityDiffers)
    else if Permits(c, a, now).Some? then Some(NotPermitted(Permits(c, a, now).value))
    else if ExactAmountOf(a).Some? && AssetKey(a) in c.maxPerAction
         && !CeilingAllows(c.maxPerAction[AssetKey(a)], authority.multiplier, ExactAmountOf(a).value)
      then Some(CeilingExceeded)
    else None
  }

  // ------------------------------------------------------ recursive assessment

  function Ids(g: PlanGraph): set<string> {
    set n | n in g.nodes :: n.id
  }

  datatype DependencyScan = AllEligible(seen: seq<(string, Status)>)
                          | FirstBlocked(id: string, seen: seq<(string, Status)>)

  function Assess(g: PlanGraph, authority: Authority, c: Capability, now: real, id: string, visiting: set<string>)
    : (r: Result<Assessment, PlanError>)
    ensures r.Ok? ==> r.value.nodeId == id
    decreases Ids(g) - visiting, 1, 0
  {
    match ActionAt(g, id)
    case Err(e) => Err(e)
    case Ok(action) =>
      if id in visiting then Ok(Assessment(id, Blocked, CycleFound, []))
      else
        assert id in Ids(g);
        match AssessDependencies(g, authority, c, now, DependenciesOf(g.edges, id), visiting + {id}, [])
        case Err(e) => Err(e)
        case Ok(FirstBlocked(d, seen)) => Ok(Assessment(id, Blocked, DependencyBlocked(d), seen))
        case Ok(AllEligible(seen)) =>
          match LocalObstacle(authority, c, action, now)
          case Some(reason) => Ok(Assessment(id, Blocked, reason, seen))
          case None => Ok(Assessment(id, Eligible, WithinAuthority, seen))
  }

  /** The loop over the dependencies: it stops at the first that is not eligible. */
  function AssessDependencies(g: PlanGraph, authority: Authority, c: Capability, now: real,
                              deps: seq<string>, visiting: set<string>, seen: seq<(string, Status)>)
    : Result<DependencyScan, PlanError>
    decreases Ids(g) - visiting, 2, |deps|
  {
    if deps == [] then Ok(AllEligible(seen))
    else match Assess(g, authority, c, now, deps[0], visiting)
      case Err(e) => Err(e)
      case Ok(a) =>
        var seen' := seen + [(deps[0], a.status)];
        if a.status != Eligible then Ok(FirstBlocked(deps[0], seen'))
        else AssessDependencies(g, authority, c, now, deps[1..], visiting, seen')
  }

  class AuthorityAwareIntentGraph {
    const graph: PlanGraph
    const authority: Authority
    const capability: Capability

    constructor (g: PlanGraph, a: Authority, c: Capability)
      ensures graph == g && authority == a && capability == c
    {
      graph, authority, capability := g, a, c;
    }

    /** `_assess`, with its loop over the dependencies and local list. */
    method AssessNode(id: string, visiting: set<string>, now: real) returns (r: Result<Assessment, PlanError>)
      ensures r == Assess(graph, authority, capability, now, id, visiting)
      ensures visiting == {} ==>
                (r.Ok? && r.value.status == Eligible <==>
                   && !CycleBelow(graph.edges, id)
                   && forall x :: Reaches(graph, id, x) ==> LocallyEligible(graph, authority, capability, now, x))
      decreases Ids(graph) - visiting
    {
      EligibleExactly(graph, authority, capability, now, id);
      var action := ActionAt(graph, id);
      if action.Err? {
        return Err(action.error);
      }
      if id in visiting {
        return Ok(Assessment(id, Blocked, CycleFound, []));
      }
      assert id in Ids(graph);
      var inner := visiting + {id};
      var deps := DependenciesOf(graph.edges, id);
      var seen: seq<(string, Status)> := [];
      ghost var whole := AssessDependencies(graph, authority, capability, now, deps, inner, []);
      for k := 0 to |deps|
        invariant whole == AssessDependencies(graph, authority, capability, now, deps[k..], inner, seen)
      {
        var dependency := AssessNode(deps[k], inner, now);
        assert deps[k..][0] == deps[k] && deps[k..][1..] == deps[k + 1..];
        if dependency.Err? {
          return Err(dependency.error);
        }
        seen := seen + [(deps[k], dependency.value.status)];
        if dependency.value.status != Eligible {
          return Ok(Assessment(id, Blocked, DependencyBlocked(deps[k]), seen));
        }
      }
      var obstacle := LocalObstacle(authority, capability, action.value, now);
      if obstacle.Some? {
        return Ok(Assessment(id, Blocked, obstacle.value, seen));
      }
      return Ok(Assessment(id, Eligible, WithinAuthority, seen));
    }
  }

  // ---------------------------------------------------------- what it decides

  ghost predicate Reaches(g: PlanGraph, id: string, x: string) {
    exists p :: IsPath(g.edges, p) && p[0] == id && Last(p) == x
  }

  ghost predicate FirstNode(g: PlanGraph, id: string, i: int) {
    0 <= i < |g.nodes| && g.nodes[i].id == id && forall j :: 0 <= j < i ==> g.nodes[j].id != id
  }

  /** What an action needs on its own: an authority that is not suspended, of its own
      agent and of the capability it requests, if it requests one; the capability's
      permission; and for an amount of a limited asset a multiplier between zero and one
      that leaves at least the amount. */
  ghost predicate Cleared(authority: Authority, c: Capability, a: ActionIntent, now: real) {
    && authority.state != Suspended
    && a.agentId == authority.agentId
    && (a.requestedCapability == None || a.requestedCapability == Some("")
        || a.requestedCapability == Some(authority.capabilityId))
    && PermittedBy(c, a, now)
    && var asset, amount := if a.asset.Some? then a.asset.value else "",
                            if a.amountExact.Some? then Some(a.amountExact.value) else a.amount;
       asset in c.maxPerAction && amount.Some? ==>
         && c.maxPerAction[asset] >= 0.0 && 0.0 <= authority.multiplier <= 1.0
         && 0.0 <= amount.value <= c.maxPerAction[asset] * authority.multiplier
  }

  /** The first node with the id is an ACTION that carries a cleared action. */
  ghost predicate LocallyEligible(g: PlanGraph, authority: Authority, c: Capability, now: real, id: string) {
    exists i :: FirstNode(g, id, i) && g.nodes[i].kind == Action && g.nodes[i].payload.Some?
                && Cleared(authority, c, g.nodes[i].payload.value, now)
  }

  lemma {:induction false} LookupFinds(nodes: seq<PlanNode>, id: string) returns (i: int)
    ensures Lookup(nodes, id).Some? ==>
              && 0 <= i < |nodes| && nodes[i].id == id && Lookup(nodes, id).value == nodes[i]
              && forall j :: 0 <= j < i ==> nodes[j].id != id
  {
    i := 0;
    if nodes != [] && nodes[0].id != id {
      i := LookupFinds(nodes[1..], id);
      i := i + 1;
    }
  }

  lemma ClearedExactly(authority: Authority, c: Capability, a: ActionIntent, now: real)
    ensures LocalObstacle(authority, c, a, now) == None <==> Cleared(authority, c, a, now)
  {
    PermitsExactly(c, a, now);
  }

  lemma LocalExactly(g: PlanGraph, authority: Authority, c: Capability, now: real, id: string)
    ensures LocallyEligible(g, authority, c, now, id) <==>
              ActionAt(g, id).Ok? && LocalObstacle(authority, c, ActionAt(g, id).value, now) == None
  {
    var i := LookupFinds(g.nodes, id);
    if Lookup(g.nodes, id).Some? {
      assert FirstNode(g, id, i) && forall j :: FirstNode(g, id, j) ==> j == i;
      if g.nodes[i].payload.Some? {
        ClearedExactly(authority, c, g.nodes[i].payload.value, now);
      }
    }
  }

  ghost predicate IsEligible(g: PlanGraph, authority: Authority, c: Capability, now: real,
                             id: string, visiting: set<string>)
  {
    var r := Assess(g, authority, c, now, id, visiting);
    r.Ok? && r.value.status == Eligible
  }

  lemma {:induction false} ScanSucceeds(g: PlanGraph, authority: Authority, c: Capability, now: real,
                                        deps: seq<string>, visiting: set<string>, seen: seq<(string, Status)>)
    ensures var s := AssessDependencies(g, authority, c, now, deps, visiting, seen);
            (s.Ok? && s.value.AllEligible?) <==>
              forall d :: d in deps ==> IsEligible(g, authority, c, now, d, visiting)
    decreases |deps|
  {
    if deps != [] {
      var a := Assess(g, authority, c, now, deps[0], visiting);
      if a.Ok? && a.value.status == Eligible {
        ScanSucceeds(g, authority, c, now, deps[1..], visiting, seen + [(deps[0], a.value.status)]);
        assert deps == [deps[0]] + deps[1..];
      } else {
        assert deps[0] in deps;
      }
    }
  }

  /** One unfolding of eligibility. */
  lemma EligibleStep(g: PlanGraph, authority: Authority, c: Capability, now: real, id: string, visiting: set<string>)
    ensures IsEligible(g, authority, c, now, id, visiting) <==>
              && LocallyEligible(g, authority, c, now, id)
              && id !in visiting
              && forall d :: d in DependenciesOf(g.edges, id) ==>
                   IsEligible(g, authority, c, now, d, visiting + {id})
  {
    LocalExactly(g, authority, c, now, id);
    if ActionAt(g, id).Ok? && id !in visiting {
      ScanSucceeds(g, authority, c, now, DependenciesOf(g.edges, id), visiting + {id}, []);
    }
  }

  /** No walk from an eligible node meets a node being visited or itself again,
      and all nodes on it pass their own checks. */
  lemma {:induction false} EligiblePath(g: PlanGraph, authority: Authority, c: Capability, now: real,
                                        p: seq<string>, visiting: set<string>)
    requires IsPath(g.edges, p) && IsEligible(g, authority, c, now, p[0], visiting)
    ensures forall k :: 0 <= k < |p| ==> p[k] !in visiting
    ensures forall k :: 0 < k < |p| ==> p[k] != p[0]
    ensures LocallyEligible(g, authority, c, now, Last(p))
    ensures exists v :: IsEligible(g, authority, c, now, Last(p), v)
    decreases |p|
  {
    EligibleStep(g, authority, c, now, p[0], visiting);
    if |p| > 1 {
      var q := p[1..];
      assert IsPath(g.edges, q) by {
        forall i | 0 <= i < |q| - 1 ensures q[i + 1] in DependenciesOf(g.edges, q[i]) {
          assert p[i + 1 + 1] in DependenciesOf(g.edges, p[i + 1]);
        }
      }
      assert p[0 + 1] in DependenciesOf(g.edges, p[0]);
      EligiblePath(g, authority, c, now, q, visiting + {p[0]});
      forall k | 0 < k < |p| ensures p[k] !in visiting && p[k] != p[0] {
        assert q[k - 1] !in visiting + {p[0]};
      }
    }
  }

  lemma ReachExtends(g: PlanGraph, root: string, trail: seq<string>, d: string)
    requires IsPath(g.edges, trail) && trail[0] == root && d in DependenciesOf(g.edges, Last(trail))
    ensures IsPath(g.edges, trail + [d]) && Reaches(g, root, d)
  {
    var p := trail + [d];
    forall i | 0 <= i < |p| - 1 ensures p[i + 1] in DependenciesOf(g.edges, p[i]) {
      if i < |trail| - 1 {
        assert trail[i + 1] in DependenciesOf(g.edges, trail[i]);
      }
    }
    assert Last(p) == d;
  }

  /** If no cycle is below `root` and everything reachable from it passes its own
      checks, then each node is eligible however the walk got to it. */
  lemma {:induction false} HealthyIsEligible(g: PlanGraph, authority: Authority, c: Capability, now: real,
                                             root: string, trail: seq<string>, id: string, visiting: set<string>)
    requires IsPath(g.edges, trail + [id]) && (trail + [id])[0] == root
    requires forall x :: x in visiting <==> x in trail
    requires !CycleBelow(g.edges, root)
    requires forall x :: Reaches(g, root, x) ==> LocallyEligible(g, authority, c, now, x)
    ensures IsEligible(g, authority, c, now, id, visiting)
    decreases Ids(g) - visiting
  {
    var walk := trail + [id];
    assert Last(walk) == id && Reaches(g, root, id);
    if id in visiting {
      var i :| 0 <= i < |trail| && trail[i] == id;
      assert IsLasso(g.edges, root, walk, i);
      assert false;
    }
    assert id in Ids(g);
    forall d | d in DependenciesOf(g.edges, id)
      ensures IsEligible(g, authority, c, now, d, visiting + {id})
    {
      ReachExtends(g, root, walk, d);
      HealthyIsEligible(g, authority, c, now, root, walk, d, visiting + {id});
    }
    EligibleStep(g, authority, c, now, id, visiting);
  }

  lemma EligibleHasNoCycle(g: PlanGraph, authority: Authority, c: Capability, now: real, id: string)
    requires IsEligible(g, authority, c, now, id, {})
    ensures !CycleBelow(g.edges, id)
  {
    if CycleBelow(g.edges, id) {
      var p: seq<string>, i: nat :| IsLasso(g.edges, id, p, i);
      PartsArePaths(g.edges, p, i);
      EligiblePath(g, authority, c, now, p[..i + 1], {});
      var v :| IsEligible(g, authority, c, now, p[i], v);
      assert p[i..][|p[i..]| - 1] == p[i..][0];
      EligiblePath(g, authority, c, now, p[i..], v);
    }
  }

  /** On every graph, cyclic or not: an assessment is ELIGIBLE exactly when no
      dependency cycle is reachable and every transitively reachable dependency,
      the node itself included, is an ACTION node that passes the local checks. */
  lemma EligibleExactly(g: PlanGraph, authority: Authority, c: Capability, now: real, id: string)
    ensures IsEligible(g, authority, c, now, id, {}) <==>
              && !CycleBelow(g.edges, id)
              && forall x :: Reaches(g, id, x) ==> LocallyEligible(g, authority, c, now, x)
  {
    if IsEligible(g, authority, c, now, id, {}) {
      forall x | Reaches(g, id, x) ensures LocallyEligible(g, authority, c, now, x) {
        var p :| IsPath(g.edges, p) && p[0] == id && Last(p) == x;
        EligiblePath(g, authority, c, now, p, {});
      }
      EligibleHasNoCycle(g, authority, c, now, id);
    } else if !CycleBelow(g.edges, id) && forall x :: Reaches(g, id, x) ==> LocallyEligible(g, authority, c, now, x) {
      assert IsPath(g.edges, [] + [id]);
      HealthyIsEligible(g, authority, c, now, id, [], id, {});
    }
  }

  /** A scan's list extends `seen` by the dependencies in order, with their own
      outcomes. */
  ghost predicate Lists(g: PlanGraph, authority: Authority, c: Capability, now: real, deps: seq<string>,
                        visiting: set<string>, seen: seq<(string, Status)>, longer: seq<(string, Status)>)
  {
    && |seen| <= |longer| <= |seen| + |deps| && longer[..|seen|] == seen
    && forall k :: |seen| <= k < |longer| ==>
         && longer[k].0 == deps[k - |seen|]
         && (longer[k].1 == Eligible <==> IsEligible(g, authority, c, now, longer[k].0, visiting))
  }

  ghost predicate EligibleUpTo(seen: seq<(string, Status)>, from: nat, n: int) {
    forall k :: from <= k < n && k < |seen| ==> seen[k].1 == Eligible
  }

  lemma ListsSnoc(g: PlanGraph, authority: Authority, c: Capability, now: real, deps: seq<string>,
                  visiting: set<string>, seen: seq<(string, Status)>, e: (string, Status),
                  longer: seq<(string, Status)>)
    requires deps != [] && e.0 == deps[0] && (e.1 == Eligible <==> IsEligible(g, authority, c, now, e.0, visiting))
    requires Lists(g, authority, c, now, deps[1..], visiting, seen + [e], longer)
    ensures Lists(g, authority, c, now, deps, visiting, seen, longer) && |longer| > |seen| && longer[|seen|] == e
  {
    assert longer[..|seen|] == longer[..|seen| + 1][..|seen|];
    assert longer[|seen|] == longer[..|seen| + 1][|seen|];
  }

  lemma {:induction false} ScanReports(g: PlanGraph, authority: Authority, c: Capability, now: real,
                                       deps: seq<string>, visiting: set<string>, seen: seq<(string, Status)>)
    requires AssessDependencies(g, authority, c, now, deps, visiting, seen).Ok?
    ensures var scan := AssessDependencies(g, authority, c, now, deps, visiting, seen).value;
            && Lists(g, authority, c, now, deps, visiting, seen, scan.seen)
            && (scan.AllEligible? ==>
                  |scan.seen| == |seen| + |deps| && EligibleUpTo(scan.seen, |seen|, |scan.seen|))
            && (scan.FirstBlocked? ==> |scan.seen| > |seen| && Last(scan.seen) == (scan.id, Blocked)
                                       && EligibleUpTo(scan.seen, |seen|, |scan.seen| - 1))
    decreases |deps|
  {
    if deps != [] {
      var a := Assess(g, authority, c, now, deps[0], visiting).value;
      var e := (deps[0], a.status);
      if a.status == Eligible {
        ScanReports(g, authority, c, now, deps[1..], visiting, seen + [e]);
        var scan := AssessDependencies(g, authority, c, now, deps[1..], visiting, seen + [e]).value;
        ListsSnoc(g, authority, c, now, deps, visiting, seen, e, scan.seen);
      } else {
        ListsSnoc(g, authority, c, now, deps, visiting, seen, e, seen + [e]);
      }
    }
  }

  /** The reason names the first check that fails. */
  ghost predicate OwnOutcome(authority: Authority, c: Capability, a: ActionIntent, now: real, status: Status,
                             reason: Reason)
  {
    var right := authority.state != Suspended && a.agentId == authority.agentId;
    var requests := a.requestedCapability.Some? && a.requestedCapability.value != "";
    var bound := right && (requests ==> a.requestedCapability.value == authority.capabilityId);
    if Cleared(authority, c, a, now) then status == Eligible && reason == WithinAuthority
    else
      && status == Blocked
      && match reason
         case AuthoritySuspended => authority.state == Suspended
         case AgentDiffers => authority.state != Suspended && a.agentId != authority.agentId
         case CapabilityDiffers => right && !bound
         case NotPermitted(_) => bound && !PermittedBy(c, a, now)
         case CeilingExceeded => bound && PermittedBy(c, a, now)
         case _ => false
  }

  lemma OutcomeExactly(authority: Authority, c: Capability, a: ActionIntent, now: real)
    ensures match LocalObstacle(authority, c, a, now)
            case None => OwnOutcome(authority, c, a, now, Eligible, WithinAuthority)
            case Some(reason) => OwnOutcome(authority, c, a, now, Blocked, reason)
  {
    ClearedExactly(authority, c, a, now);
    PermitsExactly(c, a, now);
  }

  /** What an assessment reports: the node's dependencies in order with their own
      outcomes, up to the first that is blocked, which is then the reason; otherwise all
      of them, and the node's own obstacle, named in the order of the code. */
  lemma ReportExactly(g: PlanGraph, authority: Authority, c: Capability, now: real, id: string, visiting: set<string>)
    requires Assess(g, authority, c, now, id, visiting).Ok? && id !in visiting
    ensures ActionAt(g, id).Ok?
    ensures var r, deps := Assess(g, authority, c, now, id, visiting).value, DependenciesOf(g.edges, id);
            && Lists(g, authority, c, now, deps, visiting + {id}, [], r.dependencies)
            && EligibleUpTo(r.dependencies, 0, |r.dependencies| - 1)
            && if r.dependencies != [] && Last(r.dependencies).1 == Blocked
               then r.status == Blocked && r.reason == DependencyBlocked(Last(r.dependencies).0)
               else |r.dependencies| == |deps|
                    && OwnOutcome(authority, c, ActionAt(g, id).value, now, r.status, r.reason)
  {
    ScanReports(g, authority, c, now, DependenciesOf(g.edges, id), visiting + {id}, []);
    OutcomeExactly(authority, c, ActionAt(g, id).value, now);
  }

  /** On a graph that `validate` accepts, eligibility is just local eligibility of
      everything reachable. */
  lemma EligibleOnValidatedGraph(g: PlanGraph, authority: Authority, c: Capability, now: real, id: string)
    requires ExpectedErrors(g) == [] && id in NodeIds(g)
    ensures IsEligible(g, authority, c, now, id, {}) <==>
              forall x :: Reaches(g, id, x) ==> LocallyEligible(g, authority, c, now, x)
  {
    EligibleExactly(g, authority, c, now, id);
    assert !DeclaredCycle(g);
  }

  /** An assessment never raises when all dependency-reachable nodes are ACTION
      nodes with a payload. */
  lemma {:induction false} AssessmentIsTotal(g: PlanGraph, authority: Authority, c: Capability, now: real,
                                             root: string, trail: seq<string>, id: string, visiting: set<string>)
    requires IsPath(g.edges, trail + [id]) && (trail + [id])[0] == root
    requires forall x :: Reaches(g, root, x) ==> ActionAt(g, x).Ok?
    ensures Assess(g, authority, c, now, id, visiting).Ok?
    decreases Ids(g) - visiting
  {
    var walk := trail + [id];
    assert Last(walk) == id && Reaches(g, root, id);
    if id !in visiting {
      assert id in Ids(g);
      forall d | d in DependenciesOf(g.edges, id)
        ensures Assess(g, authority, c, now, d, visiting + {id}).Ok?
      {
        ReachExtends(g, root, walk, d);
        AssessmentIsTotal(g, authority, c, now, root, walk, d, visiting + {id});
      }
      ScanNeverRaises(g, authority, c, now, DependenciesOf(g.edges, id), visiting + {id}, []);
    }
  }

  lemma {:induction false} ScanNeverRaises(g: PlanGraph, authority: Authority, c: Capability, now: real,
                                           deps: seq<string>, visiting: set<string>, seen: seq<(string, Status)>)
    requires forall d :: d in deps ==> Assess(g, authority, c, now, d, visiting).Ok?
    ensures AssessDependencies(g, authority, c, now, deps, visiting, seen).Ok?
    decreases |deps|
  {
    if deps != [] {
      assert deps[0] in deps;
      var a := Assess(g, authority, c, now, deps[0], visiting);
      ScanNeverRaises(g, authority, c, now, deps[1..], visiting, seen + [(deps[0], a.value.status)]);
    }
  }
}
