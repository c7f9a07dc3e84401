/** Overlapping calls on the dynamic-authority tables. A snapshot is four reads and
    a write (core/authority_state.py), a reset an epoch read, a snapshot, an event
    read, a transaction and a second snapshot (core/governance.py): every storage
    call is a step, any number of workers interleave them, and a worker may stop
    anywhere. */
module AuthorityWorlds {
  import opened Common
  import opened Models
  import opened Governance
  import opened DynamicAuthority
  import opened AuthorityResets
  import opened AuthorityValidators
  import AuthorityRuns
  import Traces

  /** Why a snapshot is taken: for itself, to find a scope suspended before a reset,
      or to refresh it afterwards. `seen` is how many events the reset's check of
      critical outcomes read; only statements use it. */
  datatype Purpose =
    | Plain
    | BeforeReset(reset: Reset, approvals: seq<ApprovalPayload>)
    | AfterReset(applied: Reset, seen: nat)

  datatype Call = Call(policy: AuthorityPolicy, scope: Scope, now: real, purpose: Purpose)

  datatype Pc =
    | Idle
    | Requested(reset: Reset, approvals: seq<ApprovalPayload>)
    | Began(call: Call)
    | Bounded(call: Call, latest: Option<Reset>)
    | Counted(call: Call, latest: Option<Reset>, counters: Counters)
    | Recalled(call: Call, latest: Option<Reset>, counters: Counters, suspended: bool)
    | Derived(call: Call, snapshot: Snapshot)
    | FoundSuspended(reset: Reset, approvals: seq<ApprovalPayload>)
    | Admitted(reset: Reset, approvals: seq<ApprovalPayload>, seen: nat)

  datatype World = World(db: Db, workers: map<nat, Pc>)
  {
    function Pc(i: nat): Pc {
      if i in workers then workers[i] else Idle
    }

    function At(i: nat, pc: Pc): World {
      this.(workers := workers[i := pc])
    }
  }

  const INITIAL := World(EMPTY_DB, map[])

  datatype Step =
    | Record(event: Event)
    | BeginSnapshot(worker: nat, policy: AuthorityPolicy, scope: Scope, now: real)
    | ReadReset(worker: nat)
    | ReadEvents(worker: nat)
    | ReadState(worker: nat)
    | ReadHead(worker: nat)
    | WriteState(worker: nat)
    | BeginReset(worker: nat, request: ResetRequest, capability: Option<CapabilityStatus>, verifiedAt: real)
    | ReadEpoch(worker: nat, now: real)
    | ReadCriticals(worker: nat)
    | InsertReset(worker: nat)
    | Abandon(worker: nat)

  // ---------------------------------------------------------- one snapshot, in parts

  /** Where a worker goes once its snapshot is written. */
  function AfterWrite(call: Call, snapshot: Snapshot): Pc {
    match call.purpose
    case BeforeReset(r, approvals) => if snapshot.state == Suspended then FoundSuspended(r, approvals) else Idle
    case _ => Idle
  }

  function SnapshotStep(w: World, s: Step): World
    requires s.ReadReset? || s.ReadEvents? || s.ReadState? || s.ReadHead? || s.WriteState?
  {
    var i := s.worker;
    var pc := w.Pc(i);
    match s
    case ReadReset(_) =>
      if !pc.Began? then w else w.At(i, Bounded(pc.call, LatestReset(w.db.resets, pc.call.scope)))
    case ReadEvents(_) =>
      if !pc.Bounded? then w
      else
        w.At(i, Counted(pc.call, pc.latest,
                        CountFrom(EventsOf(w.db.events, pc.call.scope),
                                  StartFrom(pc.call.policy, pc.call.now, pc.latest), None)))
    case ReadState(_) =>
      if !pc.Counted? then w
      else w.At(i, Recalled(pc.call, pc.latest, pc.counters, StandsSuspended(w.db, pc.call.scope)))
    case ReadHead(_) =>
      if !pc.Recalled? then w
      else
        w.At(i, Derived(pc.call, SnapshotFrom(pc.call.policy, pc.call.scope, pc.call.now, pc.latest, pc.counters,
                                              pc.suspended, HeadOf(RowsOf(w.db.ledger, pc.call.scope)))))
    case WriteState(_) =>
      if !pc.Derived? then w
      else World(w.db.(states := w.db.states[pc.call.scope := pc.snapshot]),
                 w.workers[i := AfterWrite(pc.call, pc.snapshot)])
  }

  predicate IsSnapshotStep(s: Step) {
    s.ReadReset? || s.ReadEvents? || s.ReadState? || s.ReadHead? || s.WriteState?
  }

  ghost function Next(w: World, s: Step, keyring: Keyring): World {
    if IsSnapshotStep(s) then SnapshotStep(w, s) else ResetStep(w, s, keyring)
  }

  ghost function ResetStep(w: World, s: Step, keyring: Keyring): World
    requires !IsSnapshotStep(s)
  {
    match s
    case Record(e) => w.(db := RecordEvent(w.db, e))
    case BeginSnapshot(i, p, scope, now) =>
      if w.Pc(i) == Idle then w.At(i, Began(Call(p, scope, now, Plain))) else w
    case BeginReset(i, request, capability, verifiedAt) =>
      if w.Pc(i) == Idle && Authentic(request, verifiedAt, keyring)
         && CapabilityError(capability, ResetFrom(request)).None?
      then w.At(i, Requested(ResetFrom(request), ApprovalsFrom(request))) else w
    case ReadEpoch(i, now) =>
      var pc := w.Pc(i);
      if !pc.Requested? then w
      else if EpochError(w.db.resets, pc.reset).Some? then w.At(i, Idle)
      else w.At(i, Began(Call(DEFAULT_POLICY, pc.reset.scope, now, BeforeReset(pc.reset, pc.approvals))))
    case ReadCriticals(i) =>
      var pc := w.Pc(i);
      if !pc.FoundSuspended? then w
      else if pc.reset.issuedAt <= LatestCritical(EventsOf(w.db.events, pc.reset.scope)).GetOr(0.0) then w.At(i, Idle)
      else w.At(i, Admitted(pc.reset, pc.approvals, |w.db.events|))
    case InsertReset(i) =>
      var pc := w.Pc(i);
      if !pc.Admitted? then w
      else if RegisterReset(w.db, pc.reset, pc.approvals).None? then w.At(i, Idle)
      else
        World(RegisterReset(w.db, pc.reset, pc.approvals).value,
              w.workers[i := Began(Call(DEFAULT_POLICY, pc.reset.scope, pc.reset.issuedAt,
                                        AfterReset(pc.reset, pc.seen)))])
    case Abandon(i) => w.At(i, Idle)
    case _ => w
  }

  ghost function Stepper(keyring: Keyring): (World, Step) -> World {
    (w: World, s: Step) => Next(w, s, keyring)
  }

  ghost function After(w: World, steps: seq<Step>, keyring: Keyring): World {
    Traces.Outcome(w, steps, Stepper(keyring))
  }

  /** `trace[k]` is the world after `k` steps. */
  ghost predicate IsTrace(run: seq<Step>, trace: seq<World>, keyring: Keyring) {
    Traces.IsTrace(INITIAL, run, trace, Stepper(keyring))
  }

  ghost predicate StepTaken(run: seq<Step>, trace: seq<World>, k: nat, keyring: Keyring)
    requires k < |run| && |trace| == |run| + 1
  {
    Traces.StepTaken(run, trace, k, Stepper(keyring))
  }

  /** The five storage calls of a snapshot, with nothing between, are the whole
      call. */
  lemma UninterruptedSnapshot(w: World, i: nat, call: Call)
    requires w.Pc(i) == Began(call)
    ensures var w2 := SnapshotStep(SnapshotStep(w, ReadReset(i)), ReadEvents(i));
            var w4 := SnapshotStep(SnapshotStep(w2, ReadState(i)), ReadHead(i));
            var w5 := SnapshotStep(w4, WriteState(i));
            && w4.Pc(i) == Derived(call, SnapshotOf(w.db, call.policy, call.scope, call.now))
            && w5.db == Observe(w.db, call.policy, call.scope, call.now)
  {
  }

  // -------------------------------------------------------------- the invariant

  /** The reset's epoch follows the resets its check read, which stay where they
      are. */
  ghost predicate EpochSound(db: Db, r: Reset) {
    var rs := ResetsOf(db.resets, r.scope);
    1 <= r.epoch <= |rs| + 1 && (r.epoch > 1 ==> r.issuedAt > rs[r.epoch - 2].issuedAt)
  }

  ghost predicate LatestSound(db: Db, s: Scope, latest: Option<Reset>) {
    latest.Some? ==> latest.value in ResetsOf(db.resets, s)
  }

  /** The first `seen` events of the scope hold no critical one at or after the
      reset. */
  ghost predicate SeenSound(db: Db, r: Reset, seen: nat) {
    && seen <= |db.events|
    && forall k :: 0 <= k < seen && db.events[k].scope == r.scope && IsCritical(db.events[k].eventType) ==>
         db.events[k].occurredAt < r.issuedAt
  }

  ghost predicate CallSound(db: Db, call: Call) {
    match call.purpose
    case Plain => true
    case BeforeReset(r, _) => EpochSound(db, r)
    case AfterReset(r, seen) =>
      && r in ResetsOf(db.resets, r.scope) && SeenSound(db, r, seen)
      && call.scope == r.scope && call.policy == DEFAULT_POLICY && call.now == r.issuedAt
  }

  /** A refresh reads a reset at least as late as the one applied. */
  ghost predicate BoundSound(call: Call, latest: Option<Reset>) {
    call.purpose.AfterReset? ==> latest.Some? && latest.value.issuedAt >= call.purpose.applied.issuedAt
  }

  ghost predicate PcSound(db: Db, pc: Pc) {
    match pc
    case Began(call) => CallSound(db, call)
    case Bounded(call, latest) => CallSound(db, call) && LatestSound(db, call.scope, latest) && BoundSound(call, latest)
    case Counted(call, latest, _) => CallSound(db, call) && LatestSound(db, call.scope, latest)
        && BoundSound(call, latest)
    case Recalled(call, latest, _, _) => CallSound(db, call) && LatestSound(db, call.scope, latest)
        && BoundSound(call, latest)
    case Derived(call, _) => CallSound(db, call)
    case FoundSuspended(r, _) => EpochSound(db, r)
    case Admitted(r, _, seen) => EpochSound(db, r) && SeenSound(db, r, seen)
    case _ => true
  }

  ghost predicate Inv(w: World) {
    ResetInv(w.db) && forall i {:trigger w.Pc(i)} :: PcSound(w.db, w.Pc(i))
  }

  /** `u` only adds events and resets. */
  ghost predicate Extends(db: Db, u: Db) {
    db.events <= u.events && db.resets <= u.resets
  }

  lemma EpochStays(db: Db, u: Db, r: Reset)
    requires EpochSound(db, r) && Extends(db, u)
    ensures EpochSound(u, r)
  {
    ResetsPrefix(db.resets, u.resets, r.scope);
  }

  lemma SeenStays(db: Db, u: Db, r: Reset, seen: nat)
    requires SeenSound(db, r, seen) && Extends(db, u)
    ensures SeenSound(u, r, seen)
  {
    forall k | 0 <= k < seen ensures u.events[k] == db.events[k] {
    }
  }

  lemma MemberStays(db: Db, u: Db, s: Scope)
    requires Extends(db, u)
    ensures forall r :: r in ResetsOf(db.resets, s) ==> r in ResetsOf(u.resets, s)
  {
    ResetsPrefix(db.resets, u.resets, s);
  }

  lemma CallStays(db: Db, u: Db, call: Call)
    requires CallSound(db, call) && Extends(db, u)
    ensures CallSound(u, call)
  {
    match call.purpose {
      case Plain =>
      case BeforeReset(r, _) =>
        EpochStays(db, u, r);
      case AfterReset(r, seen) =>
        SeenStays(db, u, r, seen);
        MemberStays(db, u, r.scope);
    }
  }

  lemma PcStays(db: Db, u: Db, pc: Pc)
    requires PcSound(db, pc) && Extends(db, u)
    ensures PcSound(u, pc)
  {
    match pc {
      case Began(call) => CallStays(db, u, call);
      case Bounded(call, latest) => CallStays(db, u, call); MemberStays(db, u, call.scope);
      case Counted(call, latest, _) => CallStays(db, u, call); MemberStays(db, u, call.scope);
      case Recalled(call, latest, _, _) => CallStays(db, u, call); MemberStays(db, u, call.scope);
      case Derived(call, _) => CallStays(db, u, call);
      case FoundSuspended(r, _) => EpochStays(db, u, r);
      case Admitted(r, _, seen) => EpochStays(db, u, r); SeenStays(db, u, r, seen);
      case _ =>
    }
  }

  /** A step keeps the invariant if it keeps that of the tables, only adds to them
      and leaves its worker in a sound place. */
  lemma StepSound(w: World, u: Db, i: nat, pc: Pc)
    requires Inv(w) && ResetInv(u) && Extends(w.db, u) && PcSound(u, pc)
    ensures Inv(World(u, w.workers[i := pc]))
  {
    var v := World(u, w.workers[i := pc]);
    forall j ensures PcSound(u, v.Pc(j)) {
      assert PcSound(w.db, w.Pc(j));
      PcStays(w.db, u, w.Pc(j));
    }
  }

  lemma LatestReadSound(db: Db, call: Call)
    requires ResetInv(db) && CallSound(db, call)
    ensures LatestSound(db, call.scope, LatestReset(db.resets, call.scope))
    ensures BoundSound(call, LatestReset(db.resets, call.scope))
  {
    var rs := ResetsOf(db.resets, call.scope);
    if rs != [] {
      assert Last(rs) in rs;
    }
    if call.purpose.AfterReset? {
      var k :| 0 <= k < |rs| && rs[k] == call.purpose.applied;
      LatestIsGreatest(rs, k);
    }
  }

  lemma EpochReadSound(db: Db, r: Reset)
    requires ResetInv(db) && EpochError(db.resets, r).None?
    ensures EpochSound(db, r)
  {
    var rs := ResetsOf(db.resets, r.scope);
    if rs != [] {
      assert InEpochOrder(rs, |rs| - 1);
    }
  }

  lemma {:induction false} EventInScope(events: seq<Event>, k: nat)
    requires k < |events|
    ensures events[k] in EventsOf(events, events[k].scope)
  {
    if k < |events| - 1 {
      EventInScope(events[..|events| - 1], k);
    }
  }

  lemma CriticalsReadSound(db: Db, r: Reset)
    requires r.issuedAt > LatestCritical(EventsOf(db.events, r.scope)).GetOr(0.0)
    ensures SeenSound(db, r, |db.events|)
  {
    LatestCriticalBounds(EventsOf(db.events, r.scope), r.issuedAt);
    forall k | 0 <= k < |db.events| && db.events[k].scope == r.scope && IsCritical(db.events[k].eventType)
      ensures db.events[k].occurredAt < r.issuedAt
    {
      EventInScope(db.events, k);
    }
  }

  lemma {:induction false} ResetsOfScope(resets: seq<Reset>, s: Scope)
    ensures forall r :: r in ResetsOf(resets, s) ==> r.scope == s && r in resets
  {
    if resets != [] {
      ResetsOfScope(resets[..|resets| - 1], s);
      assert resets == resets[..|resets| - 1] + [Last(resets)];
    }
  }

  lemma EpochStored(db: Db, s: Scope, epoch: int)
    requires ResetInv(db) && 1 <= epoch <= |ResetsOf(db.resets, s)|
    ensures exists j :: 0 <= j < |db.resets| && db.resets[j].scope == s && db.resets[j].epoch == epoch
  {
    var rs := ResetsOf(db.resets, s);
    assert InEpochOrder(rs, epoch - 1) && rs[epoch - 1] in rs;
    ResetsOfScope(db.resets, s);
    var j :| 0 <= j < |db.resets| && db.resets[j] == rs[epoch - 1];
  }

  /** However stale its check, a reset that the table still admits is the next one:
      a reset stored in between has taken its epoch. */
  lemma AdmittedIsNext(db: Db, r: Reset)
    requires ResetInv(db) && EpochSound(db, r) && !ResetTaken(db.resets, r)
    ensures EpochError(db.resets, r).None?
  {
    var rs := ResetsOf(db.resets, r.scope);
    if r.epoch <= |rs| {
      EpochStored(db, r.scope, r.epoch);
    } else if rs != [] {
      assert InEpochOrder(rs, |rs| - 1);
    }
  }

  lemma InsertKeepsResetInv(db: Db, r: Reset, approvals: seq<ApprovalPayload>)
    requires ResetInv(db) && EpochSound(db, r) && RegisterReset(db, r, approvals).Some?
    ensures ResetInv(RegisterReset(db, r, approvals).value)
    ensures r in ResetsOf(RegisterReset(db, r, approvals).value.resets, r.scope)
  {
    var u := RegisterReset(db, r, approvals).value;
    AdmittedIsNext(db, r);
    CoupledFrame(db, u);
    InsertedUnique(db.approvals, approvals);
    forall s ensures EpochsInOrder(ResetsOf(u.resets, s)) {
      EpochsExtend(db.resets, r, s);
    }
    ResetsOfMembers(u.resets, r.scope);
  }

  lemma SnapshotStepKeepsInv(w: World, s: Step)
    requires Inv(w) && IsSnapshotStep(s)
    ensures Inv(SnapshotStep(w, s))
  {
    var i := s.worker;
    var pc := w.Pc(i);
    assert PcSound(w.db, pc);
    match s {
      case ReadReset(_) =>
        if pc.Began? {
          LatestReadSound(w.db, pc.call);
          StepSound(w, w.db, i, Bounded(pc.call, LatestReset(w.db.resets, pc.call.scope)));
        }
      case ReadEvents(_) =>
        if pc.Bounded? {
          StepSound(w, w.db, i, SnapshotStep(w, s).Pc(i));
        }
      case ReadState(_) =>
        if pc.Counted? {
          StepSound(w, w.db, i, SnapshotStep(w, s).Pc(i));
        }
      case ReadHead(_) =>
        if pc.Recalled? {
          StepSound(w, w.db, i, SnapshotStep(w, s).Pc(i));
        }
      case WriteState(_) =>
        if pc.Derived? {
          CoupledFrame(w.db, SnapshotStep(w, s).db);
          StepSound(w, SnapshotStep(w, s).db, i, AfterWrite(pc.call, pc.snapshot)) by {
            CallStays(w.db, SnapshotStep(w, s).db, pc.call);
          }
        }
    }
  }

  lemma RecordKeepsInv(w: World, e: Event)
    requires Inv(w)
    ensures Inv(w.(db := RecordEvent(w.db, e)))
  {
    var u := RecordEvent(w.db, e);
    RecordKeepsCoupled(w.db, e);
    forall j ensures PcSound(u, w.Pc(j)) {
      assert PcSound(w.db, w.Pc(j));
      PcStays(w.db, u, w.Pc(j));
    }
    assert forall j :: w.(db := u).Pc(j) == w.Pc(j);
  }

  lemma ResetStepKeepsInv(w: World, s: Step, keyring: Keyring)
    requires Inv(w) && !IsSnapshotStep(s)
    ensures Inv(ResetStep(w, s, keyring))
  {
    match s {
      case Record(e) =>
        RecordKeepsInv(w, e);
      case BeginSnapshot(i, p, scope, now) =>
        StepSound(w, w.db, i, Began(Call(p, scope, now, Plain)));
      case BeginReset(i, request, capability, verifiedAt) =>
        if AboutReset(request) {
          StepSound(w, w.db, i, Requested(ResetFrom(request), ApprovalsFrom(request)));
        }
      case ReadEpoch(i, now) =>
        EpochStepKeepsInv(w, i, now, keyring);
      case ReadCriticals(i) =>
        CriticalsStepKeepsInv(w, i, keyring);
      case InsertReset(i) =>
        InsertStepKeepsInv(w, i, keyring);
      case Abandon(i) =>
        StepSound(w, w.db, i, Idle);
      case _ =>
    }
  }

  lemma EpochStepKeepsInv(w: World, i: nat, now: real, keyring: Keyring)
    requires Inv(w)
    ensures Inv(ResetStep(w, ReadEpoch(i, now), keyring))
  {
    var pc := w.Pc(i);
    StepSound(w, w.db, i, Idle);
    if pc.Requested? && EpochError(w.db.resets, pc.reset).None? {
      EpochReadSound(w.db, pc.reset);
      StepSound(w, w.db, i, Began(Call(DEFAULT_POLICY, pc.reset.scope, now, BeforeReset(pc.reset, pc.approvals))));
    }
  }

  lemma CriticalsStepKeepsInv(w: World, i: nat, keyring: Keyring)
    requires Inv(w)
    ensures Inv(ResetStep(w, ReadCriticals(i), keyring))
  {
    var pc := w.Pc(i);
    assert PcSound(w.db, pc);
    StepSound(w, w.db, i, Idle);
    if pc.FoundSuspended? && pc.reset.issuedAt > LatestCritical(EventsOf(w.db.events, pc.reset.scope)).GetOr(0.0) {
      CriticalsReadSound(w.db, pc.reset);
      StepSound(w, w.db, i, Admitted(pc.reset, pc.approvals, |w.db.events|));
    }
  }

  lemma InsertStepKeepsInv(w: World, i: nat, keyring: Keyring)
    requires Inv(w)
    ensures Inv(ResetStep(w, InsertReset(i), keyring))
  {
    var pc := w.Pc(i);
    assert PcSound(w.db, pc);
    StepSound(w, w.db, i, Idle);
    if pc.Admitted? && RegisterReset(w.db, pc.reset, pc.approvals).Some? {
      var u := RegisterReset(w.db, pc.reset, pc.approvals).value;
      InsertKeepsResetInv(w.db, pc.reset, pc.approvals);
      SeenStays(w.db, u, pc.reset, pc.seen);
      StepSound(w, u, i, Began(Call(DEFAULT_POLICY, pc.reset.scope, pc.reset.issuedAt, AfterReset(pc.reset, pc.seen))));
    }
  }

  lemma StepKeepsInv(w: World, s: Step, keyring: Keyring)
    requires Inv(w)
    ensures Inv(Next(w, s, keyring))
  {
    if IsSnapshotStep(s) {
      SnapshotStepKeepsInv(w, s);
    } else {
      ResetStepKeepsInv(w, s, keyring);
    }
  }

  /** Whatever overlaps: event table and ledger agree row by row, the epochs of every
      scope are 1, 2, …, n with strictly increasing issue times, and no reset id,
      reset nonce or approval was used twice. */
  lemma {:induction false} RunKeepsInv(run: seq<Step>, trace: seq<World>, k: nat, keyring: Keyring)
    requires IsTrace(run, trace, keyring) && k <= |run|
    ensures Inv(trace[k])
  {
    if k == 0 {
      assert forall s :: ResetsOf(EMPTY_DB.resets, s) == [];
      assert forall i :: INITIAL.Pc(i) == Idle;
    } else {
      RunKeepsInv(run, trace, k - 1, keyring);
      assert StepTaken(run, trace, k - 1, keyring);
      StepKeepsInv(trace[k - 1], run[k - 1], keyring);
    }
  }

  // ----------------------------------------------------- what every stored reset passed

  /** The reset a worker is on its way to store, if any. */
  function PendingCall(call: Call): Option<Reset> {
    match call.purpose
    case BeforeReset(r, _) => Some(r)
    case _ => None
  }

  function PendingReset(pc: Pc): Option<Reset> {
    match pc
    case Requested(r, _) => Some(r)
    case FoundSuspended(r, _) => Some(r)
    case Admitted(r, _, _) => Some(r)
    case Began(call) => PendingCall(call)
    case Bounded(call, _) => PendingCall(call)
    case Counted(call, _, _) => PendingCall(call)
    case Recalled(call, _, _, _) => PendingCall(call)
    case Derived(call, _) => PendingCall(call)
    case Idle => None
  }

  /** Step `b` begins this worker's reset: a trusted request for an active capability of
      the agent with an active identity. */
  ghost predicate BeginsAt(run: seq<Step>, b: int, i: nat, r: Reset, keyring: Keyring) {
    && 0 <= b < |run| && run[b].BeginReset? && run[b].worker == i
    && Trusted(run[b].request, run[b].verifiedAt, keyring) && r == ResetFrom(run[b].request)
    && run[b].capability == Some(CapabilityStatus(r.scope.agentId, true, true))
  }

  lemma NoCapabilityError(capability: Option<CapabilityStatus>, r: Reset)
    ensures CapabilityError(capability, r).None? <==> capability == Some(CapabilityStatus(r.scope.agentId, true, true))
  {
  }

  lemma {:induction false} ResetBegan(run: seq<Step>, trace: seq<World>, k: nat, i: nat, keyring: Keyring)
    returns (b: int)
    requires IsTrace(run, trace, keyring) && k <= |run| && PendingReset(trace[k].Pc(i)).Some?
    ensures b < k && BeginsAt(run, b, i, PendingReset(trace[k].Pc(i)).value, keyring)
    decreases k
  {
    if k > 0 {
      assert StepTaken(run, trace, k - 1, keyring);
      if PendingReset(trace[k - 1].Pc(i)) == PendingReset(trace[k].Pc(i)) {
        b := ResetBegan(run, trace, k - 1, i, keyring);
      } else {
        b := k - 1;
        TrustedExactly(run[b].request, run[b].verifiedAt, keyring);
        NoCapabilityError(run[b].capability, ResetFrom(run[b].request));
      }
    }
  }

  lemma {:induction false} WasFoundSuspended(run: seq<Step>, trace: seq<World>, k: nat, i: nat, keyring: Keyring)
    returns (w: int)
    requires IsTrace(run, trace, keyring) && k <= |run| && trace[k].Pc(i).FoundSuspended?
    ensures 0 <= w < k && run[w] == WriteState(i) && SuspendedAt(trace, w, i, trace[k].Pc(i).reset)
    decreases k
  {
    if k > 0 {
      assert StepTaken(run, trace, k - 1, keyring);
      if trace[k - 1].Pc(i) == trace[k].Pc(i) {
        w := WasFoundSuspended(run, trace, k - 1, i, keyring);
      } else {
        w := k - 1;
      }
    }
  }

  /** Before step `w` the worker holds a suspended snapshot taken for this reset. */
  ghost predicate SuspendedAt(trace: seq<World>, w: int, i: nat, r: Reset) {
    && 0 <= w < |trace| && trace[w].Pc(i).Derived?
    && trace[w].Pc(i).snapshot.state == Suspended && PendingReset(trace[w].Pc(i)) == Some(r)
  }

  /** Step `c` reads no critical outcome of the scope at or after the reset. */
  ghost predicate ClearAt(run: seq<Step>, trace: seq<World>, c: int, i: nat, r: Reset) {
    0 <= c < |run| && c < |trace| && run[c] == ReadCriticals(i) && Clear(trace[c].db, r)
  }

  ghost predicate Clear(db: Db, r: Reset) {
    forall e :: e in db.events && e.scope == r.scope ==>
      e.eventType == TamperDetected || e.eventType == PolicyViolation ==> e.occurredAt < r.issuedAt
  }

  lemma PassesClear(db: Db, r: Reset)
    requires r.issuedAt > LatestCritical(EventsOf(db.events, r.scope)).GetOr(0.0)
    ensures Clear(db, r)
  {
    LatestCriticalBounds(EventsOf(db.events, r.scope), r.issuedAt);
    EventsOfMembers(db.events, r.scope);
  }

  lemma {:induction false} WasCleared(run: seq<Step>, trace: seq<World>, k: nat, i: nat, keyring: Keyring)
    returns (w: int, c: int)
    requires IsTrace(run, trace, keyring) && k <= |run| && trace[k].Pc(i).Admitted?
    ensures w < c < k && 0 <= w && run[w] == WriteState(i) && SuspendedAt(trace, w, i, trace[k].Pc(i).reset)
    ensures ClearAt(run, trace, c, i, trace[k].Pc(i).reset)
    decreases k
  {
    if k > 0 {
      assert StepTaken(run, trace, k - 1, keyring);
      if trace[k - 1].Pc(i) == trace[k].Pc(i) {
        w, c := WasCleared(run, trace, k - 1, i, keyring);
      } else {
        c := k - 1;
        w := WasFoundSuspended(run, trace, c, i, keyring);
        PassesClear(trace[c].db, trace[k].Pc(i).reset);
      }
    }
  }

  /** What every stored reset of every run passed, whatever overlapped: its worker began
      it on a trusted request, then held a snapshot of it that was suspended, then read
      no critical outcome at or after it, and then stored it. */
  lemma {:induction false} StoredWasTrusted(run: seq<Step>, trace: seq<World>, k: nat, r: Reset, keyring: Keyring)
    returns (i: nat, b: int, w: int, c: int, s: int)
    requires IsTrace(run, trace, keyring) && k <= |run| && r in trace[k].db.resets
    ensures b < s && BeginsAt(run, b, i, r, keyring)
    ensures 0 <= w < c < s < k && run[w] == WriteState(i) && run[s] == InsertReset(i)
    ensures SuspendedAt(trace, w, i, r) && ClearAt(run, trace, c, i, r)
    decreases k
  {
    if k > 0 {
      assert StepTaken(run, trace, k - 1, keyring);
      if r in trace[k - 1].db.resets {
        i, b, w, c, s := StoredWasTrusted(run, trace, k - 1, r, keyring);
      } else {
        i, s := run[k - 1].worker, k - 1;
        b := ResetBegan(run, trace, s, i, keyring);
        w, c := WasCleared(run, trace, s, i, keyring);
      }
    }
  }

  // --------------------------------------------------------- suspension and overlap

  /** A snapshot of the scope in flight that read the state before it was suspended
      and will write another one. */
  predicate Lifts(pc: Pc, s: Scope) {
    match pc
    case Recalled(call, latest, c, suspended) =>
      call.scope == s && StateFrom(call.policy, latest, c, suspended).0 != Suspended
    case Derived(call, snapshot) => call.scope == s && snapshot.state != Suspended
    case _ => false
  }

  ghost predicate Absorbed(w: World, s: Scope) {
    && StandsSuspended(w.db, s) && ResetsOf(w.db.resets, s) == []
    && forall i {:trigger w.Pc(i)} :: !Lifts(w.Pc(i), s)
  }

  lemma SnapshotStepAbsorbs(w: World, step: Step, s: Scope)
    requires Inv(w) && Absorbed(w, s) && IsSnapshotStep(step)
    ensures Absorbed(SnapshotStep(w, step), s)
  {
    var i := step.worker;
    var pc, v := w.Pc(i), SnapshotStep(w, step);
    assert PcSound(w.db, pc) && !Lifts(pc, s);
    assert !Lifts(v.Pc(i), s);
    forall j ensures !Lifts(v.Pc(j), s) {
      assert !Lifts(w.Pc(j), s);
    }
  }

  lemma ResetStepAbsorbs(w: World, step: Step, s: Scope, keyring: Keyring)
    requires Inv(w) && Absorbed(w, s) && !IsSnapshotStep(step)
    requires ResetsOf(ResetStep(w, step, keyring).db.resets, s) == []
    ensures Absorbed(ResetStep(w, step, keyring), s)
  {
    var v := ResetStep(w, step, keyring);
    forall j ensures !Lifts(v.Pc(j), s) {
      assert !Lifts(w.Pc(j), s);
    }
  }

  lemma {:induction false} ResetsOnlyGrow(w: World, steps: seq<Step>, s: Scope, keyring: Keyring)
    requires steps != [] && ResetsOf(After(w, steps, keyring).db.resets, s) == []
    ensures ResetsOf(After(w, steps[..|steps| - 1], keyring).db.resets, s) == []
  {
    var v := After(w, steps[..|steps| - 1], keyring);
    StepExtends(v, Last(steps), keyring);
    ResetsPrefix(v.db.resets, After(w, steps, keyring).db.resets, s);
  }

  lemma StepExtends(w: World, step: Step, keyring: Keyring)
    ensures Extends(w.db, Next(w, step, keyring).db)
  {
  }

  lemma {:induction false} RunAbsorbs(w: World, steps: seq<Step>, s: Scope, keyring: Keyring)
    requires Inv(w) && Absorbed(w, s) && ResetsOf(After(w, steps, keyring).db.resets, s) == []
    ensures Inv(After(w, steps, keyring)) && Absorbed(After(w, steps, keyring), s)
  {
    if steps != [] {
      var front := steps[..|steps| - 1];
      ResetsOnlyGrow(w, steps, s, keyring);
      RunAbsorbs(w, front, s, keyring);
      var v := After(w, front, keyring);
      StepKeepsInv(v, Last(steps), keyring);
      if IsSnapshotStep(Last(steps)) {
        SnapshotStepAbsorbs(v, Last(steps), s);
      } else {
        ResetStepAbsorbs(v, Last(steps), s, keyring);
      }
    }
  }

  ghost predicate StaysSuspended(w: World, steps: seq<Step>, s: Scope, keyring: Keyring) {
    ResetsOf(After(w, steps, keyring).db.resets, s) == [] ==> StandsSuspended(After(w, steps, keyring).db, s)
  }

  /** Finishing a snapshot that lifts the suspension. */
  lemma LiftingEscapes(w: World, i: nat, s: Scope, keyring: Keyring) returns (steps: seq<Step>)
    requires ResetsOf(w.db.resets, s) == [] && Lifts(w.Pc(i), s)
    ensures !StaysSuspended(w, steps, s, keyring)
  {
    if w.Pc(i).Derived? {
      steps := [WriteState(i)];
      Traces.OutcomeOfOne(w, WriteState(i), Stepper(keyring));
    } else {
      steps := [ReadHead(i)] + [WriteState(i)];
      var v := SnapshotStep(w, ReadHead(i));
      Traces.OutcomeOfOne(w, ReadHead(i), Stepper(keyring));
      Traces.OutcomeOfBoth(w, [ReadHead(i)], [WriteState(i)], Stepper(keyring));
      Traces.OutcomeOfOne(v, WriteState(i), Stepper(keyring));
      assert v.Pc(i).Derived? && Lifts(v.Pc(i), s);
    }
  }

  /** Before the first reset, a standing suspension is absorbing, whatever overlaps,
      exactly if no snapshot of the scope is in flight that read the state earlier
      and is about to write another one. */
  lemma AbsorbingExactly(w: World, s: Scope, keyring: Keyring)
    requires Inv(w) && StandsSuspended(w.db, s) && ResetsOf(w.db.resets, s) == []
    ensures (forall steps :: StaysSuspended(w, steps, s, keyring)) <==>
              forall i {:trigger w.Pc(i)} :: !Lifts(w.Pc(i), s)
  {
    if i: nat :| Lifts(w.Pc(i), s) {
      var steps := LiftingEscapes(w, i, s, keyring);
      assert !StaysSuspended(w, steps, s, keyring);
    } else {
      forall steps ensures StaysSuspended(w, steps, s, keyring) {
        if ResetsOf(After(w, steps, keyring).db.resets, s) == [] {
          RunAbsorbs(w, steps, s, keyring);
        }
      }
    }
  }

  // -------------------------------------------------------------- after a reset

  predicate CountsCritical(e: Event, s: Scope, from: real) {
    e.scope == s && IsCritical(e.eventType) && e.occurredAt >= from
  }

  lemma CountSnoc(mine: seq<Event>, e: Event, from: real)
    ensures CountFrom(mine + [e], from, None).critical
         == CountFrom(mine, from, None).critical + One(from <= e.occurredAt && IsCritical(e.eventType))
  {
    assert (mine + [e])[..|mine|] == mine;
  }

  ghost predicate AnyCritical(events: seq<Event>, s: Scope, from: real) {
    exists k :: 0 <= k < |events| && CountsCritical(events[k], s, from)
  }

  lemma AnySnoc(events: seq<Event>, e: Event, s: Scope, from: real)
    ensures AnyCritical(events + [e], s, from) <==> AnyCritical(events, s, from) || CountsCritical(e, s, from)
  {
    var longer := events + [e];
    assert longer[|events|] == e;
    if AnyCritical(events, s, from) {
      var k :| 0 <= k < |events| && CountsCritical(events[k], s, from);
      assert longer[k] == events[k];
    }
  }

  lemma ScopeSnoc(events: seq<Event>, e: Event, s: Scope)
    ensures EventsOf(events + [e], s) == EventsOf(events, s) + if e.scope == s then [e] else []
  {
    assert (events + [e])[..|events|] == events;
  }

  lemma {:induction false} CriticalCounted(events: seq<Event>, s: Scope, from: real)
    ensures CountFrom(EventsOf(events, s), from, None).critical > 0 <==> AnyCritical(events, s, from)
  {
    if events != [] {
      var front, e := events[..|events| - 1], Last(events);
      assert events == front + [e];
      CriticalCounted(front, s, from);
      AnySnoc(front, e, s, from);
      ScopeSnoc(front, e, s);
      CountSnoc(EventsOf(front, s), e, from);
      assert EventsOf(front, s) + [] == EventsOf(front, s);
    }
  }

  /** The refreshed snapshot after an applied reset is suspended exactly if a critical
      outcome at or after the counted history's start was recorded between the
      reset's own check and the refresh; what was recorded before the check never
      counts. */
  lemma RefreshedSuspendedExactly(w: World, i: nat, suspended: bool, head: Head)
    requires Inv(w) && w.Pc(i).Bounded? && w.Pc(i).call.purpose.AfterReset?
    ensures var call, latest := w.Pc(i).call, w.Pc(i).latest;
            var counted := SnapshotStep(w, ReadEvents(i)).Pc(i);
            && StartFrom(call.policy, call.now, latest) >= call.purpose.applied.issuedAt
            && (SnapshotFrom(call.policy, call.scope, call.now, latest, counted.counters, suspended, head).state
                  == Suspended <==>
                  exists k :: call.purpose.seen <= k < |w.db.events|
                              && CountsCritical(w.db.events[k], call.scope, StartFrom(call.policy, call.now, latest)))
  {
    assert PcSound(w.db, w.Pc(i));
    CriticalCounted(w.db.events, w.Pc(i).call.scope, StartFrom(w.Pc(i).call.policy, w.Pc(i).call.now, w.Pc(i).latest));
  }

  /** After a reset is stored, every snapshot that reads the latest reset later
      starts its history at or after it. */
  lemma LaterReadsStartAfter(w: World, i: nat, r: Reset)
    requires Inv(w) && w.Pc(i).Began? && r in w.db.resets && r.scope == w.Pc(i).call.scope
    ensures var pc := SnapshotStep(w, ReadReset(i)).Pc(i);
            pc.Bounded? && StartFrom(pc.call.policy, pc.call.now, pc.latest) >= r.issuedAt
  {
    var rs := ResetsOf(w.db.resets, r.scope);
    ResetsOfMembers(w.db.resets, r.scope);
    var k :| 0 <= k < |rs| && rs[k] == r;
    LatestIsGreatest(rs, k);
  }

  // ----------------------------------------------------------- uninterrupted resets

  /** The five storage calls of worker `i`'s snapshot. */
  function WholeSnapshot(w: World, i: nat): World {
    var w2 := SnapshotStep(SnapshotStep(w, ReadReset(i)), ReadEvents(i));
    SnapshotStep(SnapshotStep(SnapshotStep(w2, ReadState(i)), ReadHead(i)), WriteState(i))
  }

  lemma WholeSnapshotObserves(w: World, i: nat)
    ensures w.Pc(i).Began? ==>
              var call := w.Pc(i).call;
              var v := WholeSnapshot(w, i);
              && v.db == Observe(w.db, call.policy, call.scope, call.now)
              && v.Pc(i) == AfterWrite(call, SnapshotOf(w.db, call.policy, call.scope, call.now))
    ensures w.Pc(i) == Idle ==> WholeSnapshot(w, i) == w
  {
    if w.Pc(i).Began? {
      UninterruptedSnapshot(w, i, w.Pc(i).call);
    }
  }

  /** The checks up to the first snapshot. */
  lemma ChecksOfReset(w: World, i: nat, request: ResetRequest, capability: Option<CapabilityStatus>, verifiedAt: real,
                      now: real, keyring: Keyring)
    requires w.Pc(i) == Idle
    ensures var w1 := ResetStep(w, BeginReset(i, request, capability, verifiedAt), keyring);
            var v := ResetStep(w1, ReadEpoch(i, now), keyring);
            && v.db == w.db
            && v.Pc(i) ==
                 if Authentic(request, verifiedAt, keyring) && CapabilityError(capability, ResetFrom(request)).None?
                    && EpochError(w.db.resets, ResetFrom(request)).None?
                 then Began(Call(DEFAULT_POLICY, ResetFrom(request).scope, now,
                                 BeforeReset(ResetFrom(request), ApprovalsFrom(request))))
                 else Idle
  {
  }

  /** From the suspended scope to the stored reset. */
  lemma StoringOfReset(w: World, i: nat, keyring: Keyring)
    requires w.Pc(i).FoundSuspended? || w.Pc(i) == Idle
    ensures var v := ResetStep(ResetStep(w, ReadCriticals(i), keyring), InsertReset(i), keyring);
            if w.Pc(i) == Idle then v == w
            else
              var r := w.Pc(i).reset;
              var stored := RegisterReset(w.db, r, w.Pc(i).approvals);
              if r.issuedAt <= LatestCritical(EventsOf(w.db.events, r.scope)).GetOr(0.0) || stored.None?
              then v.db == w.db && v.Pc(i) == Idle
              else v.db == stored.value
                   && v.Pc(i) == Began(Call(DEFAULT_POLICY, r.scope, r.issuedAt, AfterReset(r, |w.db.events|)))
  {
  }

  /** A reset whose storage calls follow each other with nothing between is the whole
      call. */
  lemma UninterruptedReset(w: World, i: nat, request: ResetRequest, capability: Option<CapabilityStatus>,
                           verifiedAt: real,
                           now: real, keyring: Keyring)
    requires w.Pc(i) == Idle
    ensures var w1 := ResetStep(w, BeginReset(i, request, capability, verifiedAt), keyring);
            var w2 := WholeSnapshot(ResetStep(w1, ReadEpoch(i, now), keyring), i);
            var w3 := ResetStep(ResetStep(w2, ReadCriticals(i), keyring), InsertReset(i), keyring);
            WholeSnapshot(w3, i).db == ResetSpec(w.db, request, capability, verifiedAt, now, keyring).0
  {
    var w1 := ResetStep(w, BeginReset(i, request, capability, verifiedAt), keyring);
    var v := ResetStep(w1, ReadEpoch(i, now), keyring);
    ChecksOfReset(w, i, request, capability, verifiedAt, now, keyring);
    UninterruptedRecovery(v, i, keyring);
  }

  /** The calls after the read-only checks. */
  lemma UninterruptedRecovery(v: World, i: nat, keyring: Keyring)
    requires v.Pc(i) == Idle
             || (v.Pc(i).Began? && v.Pc(i).call.purpose.BeforeReset? && v.Pc(i).call.policy == DEFAULT_POLICY
                 && v.Pc(i).call.scope == v.Pc(i).call.purpose.reset.scope)
    ensures var w2 := WholeSnapshot(v, i);
            var w3 := ResetStep(ResetStep(w2, ReadCriticals(i), keyring), InsertReset(i), keyring);
            WholeSnapshot(w3, i).db ==
              if v.Pc(i) == Idle then v.db
              else RecoverSpec(v.db, v.Pc(i).call.purpose.reset, v.Pc(i).call.purpose.approvals, v.Pc(i).call.now).0
  {
    WholeSnapshotObserves(v, i);
    var w2 := WholeSnapshot(v, i);
    StoringOfReset(w2, i, keyring);
    WholeSnapshotObserves(ResetStep(ResetStep(w2, ReadCriticals(i), keyring), InsertReset(i), keyring), i);
  }
}
