/** Overlapping calls on the capability tables. A delegation (core/authority.py)
    walks its parent's chain link by link, reads the two identities and inserts: every
    storage read and transaction is a step, any number of workers interleave them
    with registrations and revocations, and a worker may stop anywhere. */
module DelegationRuns {
  import opened Common
  import opened Models
  import opened Delegation
  import Traces

  datatype Request = Request(parentId: string, child: Capability, delegator: string, signatureOk: bool)

  /** Where a worker stands inside one `delegate`; a walk is at the link it reads
      next. */
  datatype Pc =
    | Idle
    | Walking(request: Request, current: string, depth: nat)
    | Resolved(request: Request)
    | Delegated(request: Request)
    | Checked(request: Request)

  datatype World = World(tables: Tables, workers: map<nat, Pc>)
  {
    function Pc(i: nat): Pc {
      if i in workers then workers[i] else Idle
    }

    function At(i: nat, pc: Pc): World {
      this.(workers := workers[i := pc])
    }
  }

  const INITIAL := World(Tables([], map[]), map[])

  datatype Step =
    | Register(capability: Capability)
    | Revoke(capabilityId: string)
    | RegisterIdentity(identity: Identity)
    | RevokeIdentity(identityId: string)
    | BeginDelegate(worker: nat, request: Request)
    | Walk(worker: nat, now: real)
    | CheckDelegator(worker: nat, now: real)
    | CheckRecipient(worker: nat, now: real)
    | InsertDelegated(worker: nat)
    | Abandon(worker: nat)

  /** One turn of the loop in `effective_active`: its visited set never fires. */
  function WalkOn(t: Tables, pc: Pc, now: real): Pc
    requires pc.Walking?
  {
    if pc.depth > MAX_DELEGATION_DEPTH || !LinkActive(t, pc.current, now) then Idle
    else
      var from := RowOf(t, pc.current).capability.delegatedFrom;
      if from.None? then Resolved(pc.request) else Walking(pc.request, from.value, pc.depth + 1)
  }

  predicate DelegatorPasses(t: Tables, r: Request, now: real) {
    && Registered(t, r.parentId) && IdentityIsActive(t, r.delegator, now)
    && RowOf(t, r.parentId).capability.identityId == Some(r.delegator)
    && r.child.identityId.Some?
  }

  predicate RecipientPasses(t: Tables, r: Request, now: real) {
    && Registered(t, r.parentId) && r.child.identityId.Some?
    && IdentityIsActive(t, r.child.identityId.value, now)
    && t.identities[r.child.identityId.value].identity.agentId == r.child.agentId
    && ValidateDelegationScope(RowOf(t, r.parentId).capability, r.child) == None
    && r.signatureOk
  }

  /** `register_delegated_capability` looks at the parent's row once more, not at its
      ancestors, its expiry or any identity. */
  function StoreDelegated(t: Tables, r: Request): Result<Tables, RegistryError> {
    if !Registered(t, r.parentId) then Err(ParentNotFound)
    else if RowOf(t, r.parentId).status != Active then Err(ParentNotEffective)
    else Insert(t, r.child)
  }

  function Next(w: World, s: Step): World {
    match s
    case Register(c) => w.(tables := OkOr(RegisterSpec(w.tables, c), w.tables))
    case Revoke(id) => w.(tables := RevokeSpec(w.tables, id))
    case RegisterIdentity(identity) => w.(tables := OkOr(RegisterIdentitySpec(w.tables, identity), w.tables))
    case RevokeIdentity(id) => w.(tables := RevokeIdentitySpec(w.tables, id))
    case BeginDelegate(i, r) =>
      if w.Pc(i) == Idle && Registered(w.tables, r.parentId) then w.At(i, Walking(r, r.parentId, 0)) else w
    case Walk(i, now) =>
      if w.Pc(i).Walking? then w.At(i, WalkOn(w.tables, w.Pc(i), now)) else w
    case CheckDelegator(i, now) =>
      if !w.Pc(i).Resolved? then w
      else
        w.At(i, if DelegatorPasses(w.tables, w.Pc(i).request, now) then Delegated(w.Pc(i).request) else Idle)
    case CheckRecipient(i, now) =>
      if !w.Pc(i).Delegated? then w
      else
        w.At(i, if RecipientPasses(w.tables, w.Pc(i).request, now) then Checked(w.Pc(i).request) else Idle)
    case InsertDelegated(i) =>
      if !w.Pc(i).Checked? then w
      else World(OkOr(StoreDelegated(w.tables, w.Pc(i).request), w.tables), w.workers[i := Idle])
    case Abandon(i) => w.At(i, Idle)
  }

  function OkOr(r: Result<Tables, RegistryError>, t: Tables): Tables {
    if r.Ok? then r.value else t
  }

  ghost function Stepper(): (World, Step) -> World {
    (w: World, s: Step) => Next(w, s)
  }

  /** `trace[k]` is the world after `k` steps. */
  ghost predicate IsTrace(run: seq<Step>, trace: seq<World>) {
    Traces.IsTrace(INITIAL, run, trace, Stepper())
  }

  ghost predicate StepTaken(run: seq<Step>, trace: seq<World>, k: nat)
    requires k < |run| && |trace| == |run| + 1
  {
    Traces.StepTaken(run, trace, k, Stepper())
  }

  // -------------------------------------------------------------- the invariant

  /** What a worker has read and stays true: rows and identities are never removed
      or changed, so a scope once validated stays valid. */
  ghost predicate PcSound(t: Tables, pc: Pc) {
    && (!pc.Idle? ==> Registered(t, pc.request.parentId))
    && (pc.Walking? ==> Registered(t, pc.current))
    && (pc.Checked? ==>
          && pc.request.child.identityId.Some? && pc.request.child.identityId.value in t.identities
          && ValidateDelegationScope(RowOf(t, pc.request.parentId).capability, pc.request.child) == None)
  }

  ghost predicate Inv(w: World) {
    WellFormed(w.tables) && forall i {:trigger w.Pc(i)} :: PcSound(w.tables, w.Pc(i))
  }

  lemma PcStays(t: Tables, u: Tables, pc: Pc)
    requires PcSound(t, pc) && Extends(t, u)
    ensures PcSound(u, pc)
  {
    if !pc.Idle? {
      FindStable(t, u, pc.request.parentId);
    }
    if pc.Walking? {
      FindStable(t, u, pc.current);
    }
  }

  lemma ParentOf(t: Tables, child: Capability, parentId: string)
    requires Registered(t, parentId) && ValidateDelegationScope(RowOf(t, parentId).capability, child) == None
    ensures child.delegatedFrom == Some(parentId)
  {
  }

  /** A step keeps the invariant if it keeps that of the tables, only extends them
      and leaves its worker in a sound place. */
  lemma StepSound(w: World, u: Tables, i: nat, pc: Pc)
    requires Inv(w) && WellFormed(u) && Extends(w.tables, u) && PcSound(u, pc)
    ensures Inv(World(u, w.workers[i := pc]))
  {
    var v := World(u, w.workers[i := pc]);
    forall j ensures PcSound(u, v.Pc(j)) {
      assert PcSound(w.tables, w.Pc(j));
      PcStays(w.tables, u, w.Pc(j));
    }
  }

  lemma TablesSound(w: World, u: Tables)
    requires Inv(w) && WellFormed(u) && Extends(w.tables, u)
    ensures Inv(w.(tables := u))
  {
    var v := w.(tables := u);
    forall j ensures PcSound(u, v.Pc(j)) {
      assert PcSound(w.tables, w.Pc(j));
      PcStays(w.tables, u, w.Pc(j));
    }
  }

  /** The tables after a step extend those before. */
  lemma StepExtends(w: World, s: Step)
    ensures Extends(w.tables, Next(w, s).tables)
  {
    match s {
      case Register(c) =>
        if RegisterSpec(w.tables, c).Ok? {
          InsertExtends(w.tables, c);
        }
      case Revoke(id) => RevokeExtends(w.tables, id);
      case InsertDelegated(i) =>
        if w.Pc(i).Checked? && StoreDelegated(w.tables, w.Pc(i).request).Ok? {
          InsertExtends(w.tables, w.Pc(i).request.child);
        }
      case _ =>
    }
  }

  lemma StoreKeepsWellFormed(t: Tables, pc: Pc)
    requires WellFormed(t) && pc.Checked? && PcSound(t, pc) && StoreDelegated(t, pc.request).Ok?
    ensures WellFormed(StoreDelegated(t, pc.request).value)
  {
    ParentOf(t, pc.request.child, pc.request.parentId);
    InsertKeepsWellFormed(t, pc.request.child);
  }

  lemma WalkKeepsSound(t: Tables, pc: Pc, now: real)
    requires WellFormed(t) && pc.Walking? && PcSound(t, pc)
    ensures PcSound(t, WalkOn(t, pc, now))
  {
    assert ParentValidated(t.capabilities, Find(t.capabilities, pc.current));
  }

  lemma StepKeepsInv(w: World, s: Step)
    requires Inv(w)
    ensures Inv(Next(w, s))
  {
    StepExtends(w, s);
    match s {
      case Register(c) =>
        if RegisterSpec(w.tables, c).Ok? {
          InsertKeepsWellFormed(w.tables, c);
        }
        TablesSound(w, Next(w, s).tables);
      case Revoke(id) =>
        RevokeKeepsWellFormed(w.tables, id);
        TablesSound(w, Next(w, s).tables);
      case RegisterIdentity(identity) =>
        TablesSound(w, Next(w, s).tables);
      case RevokeIdentity(id) =>
        TablesSound(w, Next(w, s).tables);
      case BeginDelegate(i, r) =>
        if Registered(w.tables, r.parentId) {
          StepSound(w, w.tables, i, Walking(r, r.parentId, 0));
        }
      case _ =>
        WorkerStepKeepsInv(w, s);
    }
  }

  lemma WorkerStepKeepsInv(w: World, s: Step)
    requires Inv(w) && (s.Walk? || s.CheckDelegator? || s.CheckRecipient? || s.InsertDelegated? || s.Abandon?)
    ensures Inv(Next(w, s))
  {
    var i := s.worker;
    var pc := w.Pc(i);
    assert PcSound(w.tables, pc);
    match s {
      case Walk(_, now) =>
        if pc.Walking? {
          WalkKeepsSound(w.tables, pc, now);
          StepSound(w, w.tables, i, WalkOn(w.tables, pc, now));
        }
      case InsertDelegated(_) =>
        if pc.Checked? {
          StepExtends(w, s);
          if StoreDelegated(w.tables, pc.request).Ok? {
            StoreKeepsWellFormed(w.tables, pc);
          }
          StepSound(w, Next(w, s).tables, i, Idle);
        }
      case _ =>
        StepSound(w, w.tables, i, Next(w, s).Pc(i));
    }
  }

  /** Whatever overlaps, the parent relation of the table stays acyclic and rooted:
      every row was validated against the row of its parent. */
  lemma {:induction false} RunKeepsInv(run: seq<Step>, trace: seq<World>, k: nat)
    requires IsTrace(run, trace) && k <= |run|
    ensures Inv(trace[k])
  {
    if k == 0 {
      assert forall i :: INITIAL.Pc(i) == Idle;
    } else {
      RunKeepsInv(run, trace, k - 1);
      assert StepTaken(run, trace, k - 1);
      StepKeepsInv(trace[k - 1], run[k - 1]);
    }
  }

  /** Over every interleaving capabilities and identities never change and REVOKED is
      final. */
  lemma {:induction false} RunExtends(run: seq<Step>, trace: seq<World>, j: nat, k: nat)
    requires IsTrace(run, trace) && j <= k <= |run|
    ensures Extends(trace[j].tables, trace[k].tables)
    decreases k
  {
    if j < k {
      RunExtends(run, trace, j, k - 1);
      assert StepTaken(run, trace, k - 1);
      StepExtends(trace[k - 1], run[k - 1]);
      ExtendsTransitive(trace[j].tables, trace[k - 1].tables, trace[k].tables);
    }
  }

  // ----------------------------------------------------- what every stored row passed

  /** The delegator is an unrevoked, unexpired identity and the parent is bound to it. */
  ghost predicate OwnedBy(t: Tables, r: Request, now: real) {
    && IdentityLives(t, r.delegator, now) && r.child.identityId.Some?
    && Registered(t, r.parentId)
    && t.capabilities[Find(t.capabilities, r.parentId)].capability.identityId == Some(r.delegator)
  }

  /** The recipient is a live identity of the child's agent, the child is narrower than
      its parent, and the delegation is signed. */
  ghost predicate Receivable(t: Tables, r: Request, now: real) {
    && r.child.identityId.Some? && IdentityLives(t, r.child.identityId.value, now)
    && t.identities[r.child.identityId.value].identity.agentId == r.child.agentId
    && Registered(t, r.parentId) && Narrows(t.capabilities[Find(t.capabilities, r.parentId)].capability, r.child)
    && r.signatureOk
  }

  lemma {:induction false} DelegatorWasChecked(run: seq<Step>, trace: seq<World>, k: nat, i: nat) returns (c: int)
    requires IsTrace(run, trace) && k <= |run| && trace[k].Pc(i).Delegated?
    ensures 0 <= c < k && run[c].CheckDelegator? && run[c].worker == i
    ensures OwnedBy(trace[c].tables, trace[k].Pc(i).request, run[c].now)
    decreases k
  {
    if k > 0 {
      assert StepTaken(run, trace, k - 1);
      if trace[k - 1].Pc(i) == trace[k].Pc(i) {
        c := DelegatorWasChecked(run, trace, k - 1, i);
      } else {
        c := k - 1;
      }
    }
  }

  lemma {:induction false} RecipientWasChecked(run: seq<Step>, trace: seq<World>, k: nat, i: nat)
    returns (c: int, r: int)
    requires IsTrace(run, trace) && k <= |run| && trace[k].Pc(i).Checked?
    ensures 0 <= c < r < k && run[c].CheckDelegator? && run[c].worker == i
    ensures run[r].CheckRecipient? && run[r].worker == i
    ensures OwnedBy(trace[c].tables, trace[k].Pc(i).request, run[c].now)
    ensures Receivable(trace[r].tables, trace[k].Pc(i).request, run[r].now)
    decreases k
  {
    if k > 0 {
      assert StepTaken(run, trace, k - 1);
      if trace[k - 1].Pc(i) == trace[k].Pc(i) {
        c, r := RecipientWasChecked(run, trace, k - 1, i);
      } else {
        var request := trace[k].Pc(i).request;
        c := DelegatorWasChecked(run, trace, k - 1, i);
        r := k - 1;
        AcceptsExactly(RowOf(trace[r].tables, request.parentId).capability, request.child);
      }
    }
  }

  /** What every delegated row of every run passed, whatever overlapped: its worker found
      the delegator alive and the parent's owner, later the recipient alive and of the
      child's agent, the child narrower and the signature right, and later stored it
      while the parent's row read ACTIVE. */
  lemma {:induction false} StoredWasChecked(run: seq<Step>, trace: seq<World>, k: nat, n: nat)
    returns (request: Request, i: nat, c: int, r: int, s: int)
    requires IsTrace(run, trace) && k <= |run| && n < |trace[k].tables.capabilities|
    requires trace[k].tables.capabilities[n].capability.delegatedFrom.Some?
    ensures request.child == trace[k].tables.capabilities[n].capability
    ensures 0 <= c < r < s < k && run[s] == InsertDelegated(i)
    ensures run[c].CheckDelegator? && run[c].worker == i && OwnedBy(trace[c].tables, request, run[c].now)
    ensures run[r].CheckRecipient? && run[r].worker == i && Receivable(trace[r].tables, request, run[r].now)
    ensures Registered(trace[s].tables, request.parentId)
    ensures var t := trace[s].tables; t.capabilities[Find(t.capabilities, request.parentId)].status == Active
    decreases k
  {
    if k > 0 {
      assert StepTaken(run, trace, k - 1);
      StepExtends(trace[k - 1], run[k - 1]);
      if n < |trace[k - 1].tables.capabilities| {
        request, i, c, r, s := StoredWasChecked(run, trace, k - 1, n);
      } else {
        assert run[k - 1].InsertDelegated?;
        i, s := run[k - 1].worker, k - 1;
        request := trace[s].Pc(i).request;
        c, r := RecipientWasChecked(run, trace, s, i);
      }
    }
  }

  // ------------------------------------------------------------------- permanence

  /** A link that is revoked or expired stays so. */
  lemma DeadStaysDead(t: Tables, u: Tables, id: string, now: real, later: real)
    requires WellFormed(t) && Registered(t, id) && !LinkActive(t, id, now) && Extends(t, u) && now <= later
    ensures !LinkActive(u, id, later) && Registered(u, id) && RowOf(u, id).capability == RowOf(t, id).capability
  {
    FindStable(t, u, id);
  }

  /** The capability lies on the authority path of `heir`. */
  ghost predicate OnPath(t: Tables, c: Capability, heir: string) {
    WellFormed(t) && Registered(t, heir) && c in Ancestry(t, Find(t.capabilities, heir))
  }

  /** Permanence: once a registered capability or the identity it is bound to is
      revoked or expired, then after any further steps and at any later time no
      capability with it on its authority path is effective, whether it was delegated
      before, after or meanwhile. */
  lemma RevocationIsPermanent(run: seq<Step>, trace: seq<World>, j: nat, k: nat, id: string, now: real, later: real,
                              heir: string)
    requires IsTrace(run, trace) && j <= k <= |run| && now <= later
    requires Registered(trace[j].tables, id) && !LinkActive(trace[j].tables, id, now)
    requires OnPath(trace[k].tables, RowOf(trace[j].tables, id).capability, heir)
    ensures !Effective(trace[k].tables, heir, later)
  {
    RunKeepsInv(run, trace, j);
    RunExtends(run, trace, j, k);
    DeadStaysDead(trace[j].tables, trace[k].tables, id, now, later);
    assert RowOf(trace[j].tables, id).capability.capabilityId == id;
  }

  // ------------------------------------------------- what an overlapped delegation does

  /** What the row that a worker past its checks inserts is worth, whatever happened
      since them: at any time it is effective exactly if its parent was when it was
      inserted, its recipient's identity was active and it has not expired. */
  lemma DelegatedEffectiveExactly(t: Tables, r: Request, now: real)
    requires WellFormed(t) && PcSound(t, Checked(r)) && StoreDelegated(t, r).Ok?
    requires Last(Ancestry(t, Find(t.capabilities, r.parentId))).delegationDepth >= 0
    ensures WellFormed(StoreDelegated(t, r).value)
    ensures Effective(StoreDelegated(t, r).value, r.child.capabilityId, now) <==>
              && Effective(t, r.parentId, now)
              && IdentityIsActive(t, r.child.identityId.value, now)
              && (r.child.expiresAt.None? || now < r.child.expiresAt.value)
  {
    ParentOf(t, r.child, r.parentId);
    InsertedEffectiveExactly(t, r.child, now);
  }

  /** From step `b` to step `k` worker `i` is inside one delegation, and its reads
      happen no earlier than `start`. */
  ghost predicate InCall(run: seq<Step>, trace: seq<World>, b: nat, k: nat, i: nat, r: Request, start: real)
    requires k <= |run| && |trace| == |run| + 1
  {
    && b < k && trace[b].Pc(i) == Idle && run[b] == BeginDelegate(i, r)
    && (forall m {:trigger trace[m].Pc(i)} :: b < m <= k ==> !trace[m].Pc(i).Idle?)
    && (forall m {:trigger run[m]} :: b < m < k && run[m].Walk? && run[m].worker == i ==> run[m].now >= start)
  }

  /** The walk has still to read the link of this capability. */
  ghost predicate Ahead(t: Tables, pc: Pc, c: Capability)
    requires WellFormed(t)
  {
    pc.Walking? && Registered(t, pc.current) && c in Ancestry(t, Find(t.capabilities, pc.current))
  }

  lemma AheadStays(t: Tables, u: Tables, pc: Pc, c: Capability)
    requires WellFormed(t) && WellFormed(u) && Extends(t, u) && Ahead(t, pc, c)
    ensures Ahead(u, pc, c)
  {
    FindStable(t, u, pc.current);
    AncestryStable(t, u, Find(t.capabilities, pc.current));
  }

  /** Walking past a link that is not the dead one leaves the dead one ahead. */
  lemma WalkKeepsAhead(t: Tables, pc: Pc, id: string, now: real)
    requires WellFormed(t) && Registered(t, id) && !LinkActive(t, id, now) && Ahead(t, pc, RowOf(t, id).capability)
    requires !WalkOn(t, pc, now).Idle?
    ensures Ahead(t, WalkOn(t, pc, now), RowOf(t, id).capability)
  {
    var at := Find(t.capabilities, pc.current);
    assert ParentValidated(t.capabilities, at);
    assert t.capabilities[at].capability.capabilityId == pc.current;
  }

  /** A walking worker moves by its own walk only, or gives up. */
  lemma OnlyWalksMove(w: World, s: Step, i: nat)
    requires w.Pc(i).Walking? && !Next(w, s).Pc(i).Idle? && Next(w, s).Pc(i) != w.Pc(i)
    ensures s.Walk? && s.worker == i && Next(w, s).Pc(i) == WalkOn(w.tables, w.Pc(i), s.now)
    ensures Next(w, s).tables == w.tables
  {
  }

  /** A link that is dead when a delegation below it begins stops that delegation,
      whatever overlaps: the walk never gets past it, so nothing is inserted. */
  lemma {:induction false} DeadLinkStopsDelegation(run: seq<Step>, trace: seq<World>, b: nat, k: nat, i: nat,
                                                   r: Request, id: string, start: real)
    requires IsTrace(run, trace) && k <= |run| && InCall(run, trace, b, k, i, r, start)
    requires Registered(trace[b].tables, id) && !LinkActive(trace[b].tables, id, start)
    requires OnPath(trace[b].tables, RowOf(trace[b].tables, id).capability, r.parentId)
    ensures WellFormed(trace[k].tables)
    ensures Ahead(trace[k].tables, trace[k].Pc(i), RowOf(trace[b].tables, id).capability)
    decreases k
  {
    RunKeepsInv(run, trace, k);
    if k == b + 1 {
      CallBegins(run, trace, b, i, r, RowOf(trace[b].tables, id).capability);
    } else {
      RunKeepsInv(run, trace, b);
      DeadLinkStopsDelegation(run, trace, b, k - 1, i, r, id, start);
      CallStep(run, trace, b, k - 1, i, id, start);
    }
  }

  lemma CallBegins(run: seq<Step>, trace: seq<World>, b: nat, i: nat, r: Request, c: Capability)
    requires IsTrace(run, trace) && b < |run| && trace[b].Pc(i) == Idle && run[b] == BeginDelegate(i, r)
    requires OnPath(trace[b].tables, c, r.parentId)
    ensures WellFormed(trace[b + 1].tables) && Ahead(trace[b + 1].tables, trace[b + 1].Pc(i), c)
  {
    assert StepTaken(run, trace, b);
  }

  lemma CallStep(run: seq<Step>, trace: seq<World>, b: nat, m: nat, i: nat, id: string, start: real)
    requires IsTrace(run, trace) && b < m < |run| && WellFormed(trace[m].tables) && WellFormed(trace[m + 1].tables)
    requires !trace[m + 1].Pc(i).Idle?
    requires run[m].Walk? && run[m].worker == i ==> run[m].now >= start
    requires WellFormed(trace[b].tables) && Registered(trace[b].tables, id) && !LinkActive(trace[b].tables, id, start)
    requires Ahead(trace[m].tables, trace[m].Pc(i), RowOf(trace[b].tables, id).capability)
    ensures Ahead(trace[m + 1].tables, trace[m + 1].Pc(i), RowOf(trace[b].tables, id).capability)
  {
    assert StepTaken(run, trace, m);
    if trace[m + 1].Pc(i) != trace[m].Pc(i) {
      OnlyWalksMove(trace[m], run[m], i);
      RunExtends(run, trace, b, m);
      DeadStaysDead(trace[b].tables, trace[m].tables, id, start, run[m].now);
      WalkKeepsAhead(trace[m].tables, trace[m].Pc(i), id, run[m].now);
    } else {
      StepExtends(trace[m], run[m]);
      AheadStays(trace[m].tables, trace[m + 1].tables, trace[m].Pc(i), RowOf(trace[b].tables, id).capability);
    }
  }

  // ------------------------------------------------------------ uninterrupted calls

  ghost function Walks(w: World, i: nat, now: real, n: nat): World
    decreases n
  {
    if n == 0 then w else Walks(Next(w, Walk(i, now)), i, now, n - 1)
  }

  /** Enough turns of the loop with nothing between decide whether the parent is
      effective. */
  lemma {:induction false} WalksDecide(w: World, i: nat, now: real, n: nat)
    requires WellFormed(w.tables) && (w.Pc(i).Walking? ==> Registered(w.tables, w.Pc(i).current))
    requires w.Pc(i).Walking? ==> Find(w.tables.capabilities, w.Pc(i).current) < n
    ensures var v := Walks(w, i, now, n);
            v.tables == w.tables && v.Pc(i) ==
              if !w.Pc(i).Walking? then w.Pc(i)
              else if EffectiveFrom(w.tables, Some(w.Pc(i).current), w.Pc(i).depth, now) then Resolved(w.Pc(i).request)
              else Idle
    decreases n
  {
    if n > 0 {
      var pc, u := w.Pc(i), Next(w, Walk(i, now));
      if pc.Walking? {
        var at := Find(w.tables.capabilities, pc.current);
        assert ParentValidated(w.tables.capabilities, at);
        if pc.depth <= MAX_DELEGATION_DEPTH {
          WholeChainStep(w.tables, pc.current, pc.depth, now);
        }
      }
      WalksDecide(u, i, now, n - 1);
    }
  }

  /** The steps of one delegation, with nothing between, are the whole call. */
  lemma UninterruptedDelegate(w: World, i: nat, r: Request, now: real)
    requires Inv(w) && w.Pc(i) == Idle
    ensures var w1 := Walks(Next(w, BeginDelegate(i, r)), i, now, |w.tables.capabilities|);
            var w2 := Next(Next(w1, CheckDelegator(i, now)), CheckRecipient(i, now));
            Next(w2, InsertDelegated(i)).tables
              == OkOr(DelegateSpec(w.tables, r.parentId, r.child, r.delegator, r.signatureOk, now), w.tables)
  {
    var begun := Next(w, BeginDelegate(i, r));
    WalksDecide(begun, i, now, |w.tables.capabilities|);
    var w1 := Walks(begun, i, now, |w.tables.capabilities|);
    if Registered(w.tables, r.parentId) && Effective(w.tables, r.parentId, now) {
      assert w1.Pc(i) == Resolved(r) && w1.tables == w.tables;
      ParentActive(w.tables, r.parentId, now);
      ChecksAndInsert(w1, i, now);
    } else {
      assert w1.Pc(i) == Idle && w1.tables == w.tables;
      NothingHappens(w1, i, r, now);
    }
  }

  lemma NothingHappens(w: World, i: nat, r: Request, now: real)
    requires WellFormed(w.tables) && w.Pc(i) == Idle
    requires !Registered(w.tables, r.parentId) || !Effective(w.tables, r.parentId, now)
    ensures Next(Next(Next(w, CheckDelegator(i, now)), CheckRecipient(i, now)), InsertDelegated(i)) == w
    ensures DelegateSpec(w.tables, r.parentId, r.child, r.delegator, r.signatureOk, now).Err?
  {
  }

  lemma ParentActive(t: Tables, id: string, now: real)
    requires WellFormed(t) && Registered(t, id) && Effective(t, id, now)
    ensures RowOf(t, id).status == Active
  {
    assert RowOf(t, id).capability in Ancestry(t, Find(t.capabilities, id));
  }

  lemma ChecksAndInsert(w: World, i: nat, now: real)
    requires WellFormed(w.tables) && w.Pc(i).Resolved? && Registered(w.tables, w.Pc(i).request.parentId)
    requires Effective(w.tables, w.Pc(i).request.parentId, now)
    requires RowOf(w.tables, w.Pc(i).request.parentId).status == Active
    ensures var r := w.Pc(i).request;
            Next(Next(Next(w, CheckDelegator(i, now)), CheckRecipient(i, now)), InsertDelegated(i)).tables
              == OkOr(DelegateSpec(w.tables, r.parentId, r.child, r.delegator, r.signatureOk, now), w.tables)
  {
    var w1 := Next(w, CheckDelegator(i, now));
    assert w1.Pc(i) == if DelegatorPasses(w.tables, w.Pc(i).request, now) then Delegated(w.Pc(i).request) else Idle;
  }

  // --------------------------------------------- a delegation that comes out ineffective

  function Granted(id: string, agentId: string, parent: Option<string>, giver: Option<string>, depth: int): Capability {
    Capability(id, agentId, Some(agentId), parent, giver, depth, [], [], map[], [], [], [], [], map[], map[], [], 1,
               None)
  }

  const ROOT := Granted("root", "a", None, None, 0)
  const CHILD := Granted("child", "b", Some("root"), Some("a"), 1)
  const GRANT := Request("root", CHILD, "a", true)

  const HOLDING: seq<Step> :=
    [] + [RegisterIdentity(Identity("a", "a", None))] + [RegisterIdentity(Identity("b", "b", None))] + [Register(ROOT)]

  const CHECKING := HOLDING + [BeginDelegate(0, GRANT)] + [Walk(0, 1.0)] + [CheckDelegator(0, 2.0)]
                    + [CheckRecipient(0, 3.0)]

  /** The root's identity is revoked after every check and before the insert. */
  const MISSED := CHECKING + [RevokeIdentity("a")] + [InsertDelegated(0)]

  const IDENTITIES := map["a" := IdentityRow(Identity("a", "a", None), Active),
                          "b" := IdentityRow(Identity("b", "b", None), Active)]
  const HELD := Tables([] + [CapabilityRow(ROOT, Active)], IDENTITIES)
  const REVOKED := HELD.(identities := IDENTITIES["a" := IdentityRow(Identity("a", "a", None), Revoked)])
  const STORED := REVOKED.(capabilities := REVOKED.capabilities + [CapabilityRow(CHILD, Active)])

  ghost function Reached(steps: seq<Step>): World {
    Traces.Outcome(INITIAL, steps, Stepper())
  }

  lemma Then(steps: seq<Step>, step: Step)
    ensures Reached(steps + [step]) == Next(Reached(steps), step)
  {
    Traces.OutcomeOfBoth(INITIAL, steps, [step], Stepper());
    Traces.OutcomeOfOne(Reached(steps), step, Stepper());
  }

  lemma NamesDiffer()
    ensures "a" != "b" && "root" != "child"
  {
    assert "a"[0] != "b"[0] && |"root"| != |"child"|;
  }

  lemma RootHeld()
    ensures Reached(HOLDING).tables == HELD && Reached(HOLDING).Pc(0) == Idle
  {
    var s1 := [] + [RegisterIdentity(Identity("a", "a", None))];
    var s2 := s1 + [RegisterIdentity(Identity("b", "b", None))];
    NamesDiffer();
    Then([], RegisterIdentity(Identity("a", "a", None)));
    Then(s1, RegisterIdentity(Identity("b", "b", None)));
    Then(s2, Register(ROOT));
  }

  lemma GrantPasses()
    ensures Registered(HELD, "root") && RowOf(HELD, "root").capability == ROOT && LinkActive(HELD, "root", 1.0)
    ensures DelegatorPasses(HELD, GRANT, 2.0) && RecipientPasses(HELD, GRANT, 3.0)
  {
    assert Find(HELD.capabilities, "root") == 0;
  }

  lemma AllChecksPass()
    ensures Reached(CHECKING).tables == HELD && Reached(CHECKING).Pc(0) == Checked(GRANT)
  {
    RootHeld();
    GrantPasses();
    var s1 := HOLDING + [BeginDelegate(0, GRANT)];
    Then(HOLDING, BeginDelegate(0, GRANT));
    Then(s1, Walk(0, 1.0));
    Then(s1 + [Walk(0, 1.0)], CheckDelegator(0, 2.0));
    Then(s1 + [Walk(0, 1.0)] + [CheckDelegator(0, 2.0)], CheckRecipient(0, 3.0));
  }

  lemma InsertStillPasses()
    ensures RevokeIdentitySpec(HELD, "a") == REVOKED && StoreDelegated(REVOKED, GRANT) == Ok(STORED)
    ensures WellFormed(HELD) && WellFormed(REVOKED)
  {
    NamesDiffer();
    GrantPasses();
    assert Find(REVOKED.capabilities, "root") == 0 && Find(REVOKED.capabilities, "child") == 1;
  }

  /** The insert goes through, and the new row is not effective, at any time. */
  lemma RevokedMeanwhile(now: real)
    ensures Reached(MISSED).tables == STORED && WellFormed(STORED) && !Effective(STORED, "child", now)
  {
    AllChecksPass();
    InsertStillPasses();
    Then(CHECKING, RevokeIdentity("a"));
    Then(CHECKING + [RevokeIdentity("a")], InsertDelegated(0));
    DelegatedEffectiveExactly(REVOKED, GRANT, now);
    RootIneffective(now);
  }

  lemma RootIneffective(now: real)
    requires WellFormed(REVOKED)
    ensures !Effective(REVOKED, "root", now)
  {
    assert Find(REVOKED.capabilities, "root") == 0;
    assert ROOT in Ancestry(REVOKED, 0) && !LinkActive(REVOKED, "root", now);
  }
}
