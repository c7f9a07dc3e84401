/** Overlapping calls on the governed-policy tables. A publication and a control
    are several storage calls each (core/policy_version.py): every read and every
    transaction is a step, any number of workers interleave them, and a worker may
    stop anywhere. */
module PolicyRuns {
  import opened Common
  import opened Governance
  import opened PolicyLineage
  import Traces

  /** Where a worker stands inside one `publish` or `apply`. `seen` is how many
      versions of the policy id the latest-version read saw; only statements use
      it. `read` is the number of storage reads a control has passed. */
  datatype Pc =
    | Idle
    | Approved(signed: SignedVersion, action: GovernanceAction, approvals: seq<ApprovalPayload>)
    | Unpublished(signed: SignedVersion, action: GovernanceAction, approvals: seq<ApprovalPayload>)
    | Cleared(signed: SignedVersion, action: GovernanceAction, approvals: seq<ApprovalPayload>, seen: nat)
    | Checking(action: GovernanceAction, read: nat)

  datatype World = World(db: PolicyDb, workers: map<nat, Pc>)
  {
    function Pc(i: nat): Pc {
      if i in workers then workers[i] else Idle
    }

    function At(i: nat, pc: Pc): World {
      this.(workers := workers[i := pc])
    }
  }

  const INITIAL := World(EMPTY_POLICY_DB, map[])

  datatype Step =
    | BeginPublish(worker: nat, signed: SignedVersion, action: GovernanceAction, approvals: seq<ApprovalPayload>,
                   policy: GovernancePolicy, key: string, now: real)
    | ReadDigest(worker: nat)
    | ReadLatest(worker: nat)
    | InsertVersion(worker: nat)
    | BeginControl(worker: nat, action: GovernanceAction, approvals: seq<ApprovalPayload>, policy: GovernancePolicy,
                   now: real)
    | ReadControl(worker: nat)
    | UpsertControl(worker: nat)
    | RegisterVersion(signed: SignedVersion)
    | Abandon(worker: nat)

  const READS := 4

  ghost function Next(w: World, s: Step, keys: Keys): World {
    match s
    case BeginPublish(i, signed, a, approvals, policy, key, now) =>
      if w.Pc(i) == Idle && VersionAuthentic(signed, key, keys)
          && QuorumAccepts(a, approvals, policy, now, keys.approvals)
         && ActionDescribes(a, signed.payload)
      then w.At(i, Approved(signed, a, approvals)) else w
    case ReadDigest(i) =>
      if !w.Pc(i).Approved? then w
      else if Governed(w.db.changes, w.Pc(i).signed.payload.sha).Some? then w.At(i, Idle)
      else w.At(i, Unpublished(w.Pc(i).signed, w.Pc(i).action, w.Pc(i).approvals))
    case ReadLatest(i) =>
      if !w.Pc(i).Unpublished? then w
      else if VersionError(w.db.changes, w.Pc(i).signed.payload).Some? then w.At(i, Idle)
      else
        w.At(i, Cleared(w.Pc(i).signed, w.Pc(i).action, w.Pc(i).approvals,
                        |Lineage(w.db.changes, w.Pc(i).signed.payload.policyId)|))
    case InsertVersion(i) =>
      if !w.Pc(i).Cleared? then w
      else World(RegisterChange(w.db, w.Pc(i).signed, w.Pc(i).action, w.Pc(i).approvals).0, w.workers[i := Idle])
    case BeginControl(i, a, approvals, policy, now) =>
      if w.Pc(i) == Idle && QuorumAccepts(a, approvals, policy, now, keys.approvals) then w.At(i, Checking(a, 0)) else w
    case ReadControl(i) =>
      if !w.Pc(i).Checking? || w.Pc(i).read >= READS then w
      else if ControlCheck(w.db, w.Pc(i).action, w.Pc(i).read).Some? then w.At(i, Idle)
      else w.At(i, Checking(w.Pc(i).action, w.Pc(i).read + 1))
    case UpsertControl(i) =>
      if !ReadyToUpsert(w.Pc(i)) then w else World(StoreControl(w.db, w.Pc(i).action).0, w.workers[i := Idle])
    case RegisterVersion(signed) => w.(db := RegisterVersionSpec(w.db, signed))
    case Abandon(i) => w.At(i, Idle)
  }

  predicate ReadyToUpsert(pc: Pc) {
    pc.Checking? && pc.read == READS && (pc.action.body.PolicyFreeze? || pc.action.body.PolicyRollback?)
  }

  ghost function Stepper(keys: Keys): (World, Step) -> World {
    (w: World, s: Step) => Next(w, s, keys)
  }

  /** `trace[k]` is the world after `k` steps. */
  ghost predicate IsTrace(run: seq<Step>, trace: seq<World>, keys: Keys) {
    Traces.IsTrace(INITIAL, run, trace, Stepper(keys))
  }

  ghost predicate StepTaken(run: seq<Step>, trace: seq<World>, k: nat, keys: Keys)
    requires k < |run| && |trace| == |run| + 1
  {
    Traces.StepTaken(run, trace, k, Stepper(keys))
  }

  // -------------------------------------------------------------- the invariant

  /** If the versions a publication saw were 1, 2, …, `seen`, it carries the next
      one and names the last of them. */
  ghost predicate SeenSound(changes: seq<Change>, v: PolicyVersion, seen: nat) {
    var line := Lineage(changes, v.policyId);
    && seen <= |line|
    && (LinesUp(line[..seen]) ==>
          v.version == seen + 1 && v.parent == if seen == 0 then None else Some(line[seen - 1].Sha()))
  }

  /** What a worker has read and stays true however others go on. */
  ghost predicate PcSound(changes: seq<Change>, pc: Pc) {
    match pc
    case Cleared(signed, _, _, seen) =>
      MayFollow(changes, signed.payload) && SeenSound(changes, signed.payload, seen)
    case Checking(a, read) =>
      && (read >= 1 ==> a.body.PolicyFreeze? || a.body.PolicyRollback?)
      && (read >= 2 ==> IsMember(changes, a.body.policyId, a.body.current))
      && (read >= READS && a.body.PolicyRollback? ==>
            IsVersion(changes, a.body.policyId, a.body.target, a.body.targetVersion))
    case _ => true
  }

  ghost predicate IsVersion(changes: seq<Change>, pid: string, sha: string, version: int) {
    exists c :: c in Lineage(changes, pid) && c.Sha() == sha && c.Version() == version
  }

  ghost predicate Inv(w: World) {
    PolicyInv(w.db) && forall i {:trigger w.Pc(i)} :: PcSound(w.db.changes, w.Pc(i))
  }

  lemma PcStaysSound(changes: seq<Change>, c: Change, pc: Pc)
    requires PcSound(changes, pc)
    ensures PcSound(changes + [c], pc)
  {
    match pc {
      case Cleared(signed, _, _, seen) =>
        var line, longer := Lineage(changes, signed.payload.policyId), Lineage(changes + [c], signed.payload.policyId);
        LineageSnoc(changes, c, signed.payload.policyId);
        assert longer[..seen] == line[..seen];
      case Checking(a, read) =>
        if read >= 1 {
          LineageSnoc(changes, c, a.body.policyId);
          MembersStay(changes, c, a.body.policyId);
        }
      case _ =>
    }
  }

  lemma MembersStay(changes: seq<Change>, c: Change, pid: string)
    ensures forall sha :: IsMember(changes, pid, sha) ==> IsMember(changes + [c], pid, sha)
    ensures forall sha, version :: IsVersion(changes, pid, sha, version) ==> IsVersion(changes + [c], pid, sha, version)
  {
    LineageSnoc(changes, c, pid);
    forall d | d in Lineage(changes, pid) ensures d in Lineage(changes + [c], pid) {
    }
  }

  /** A read that passes establishes what the worker relies on. */
  lemma LatestReadSound(changes: seq<Change>, v: PolicyVersion)
    requires VersionError(changes, v).None?
    ensures MayFollow(changes, v) && SeenSound(changes, v, |Lineage(changes, v.policyId)|)
  {
    SuccessionFollows(changes, v);
    var line := Lineage(changes, v.policyId);
    assert line[..|line|] == line;
    if LinesUp(line) {
      SuccessionExactly(changes, v);
    }
  }

  lemma ControlReadSound(db: PolicyDb, a: GovernanceAction, read: nat)
    requires PolicyInv(db) && read < READS && PcSound(db.changes, Checking(a, read))
    requires ControlCheck(db, a, read).None?
    ensures PcSound(db.changes, Checking(a, read + 1))
  {
    var pid := a.body.policyId;
    if read == 1 {
      MemberExactly(db.changes, pid, a.body.current, CurrentNotGoverned);
    } else if read == 3 && a.body.PolicyRollback? {
      GovernedExactly(db.changes, a.body.target);
      LineageMembers(db.changes, pid);
      var c := Governed(db.changes, a.body.target).value;
      assert c in Lineage(db.changes, pid);
    }
  }

  lemma InsertKeepsInv(w: World, i: nat)
    requires Inv(w) && w.Pc(i).Cleared?
    ensures var u := RegisterChange(w.db, w.Pc(i).signed, w.Pc(i).action, w.Pc(i).approvals).0;
            Inv(World(u, w.workers[i := Idle]))
  {
    var pc := w.Pc(i);
    var (u, error) := RegisterChange(w.db, pc.signed, pc.action, pc.approvals);
    var v := World(u, w.workers[i := Idle]);
    RegisterKeepsInv(w.db, pc.signed, pc.action, pc.approvals);
    forall j ensures PcSound(v.db.changes, v.Pc(j)) {
      assert PcSound(w.db.changes, w.Pc(j));
      if error.None? {
        PcStaysSound(w.db.changes, Change(pc.signed, pc.action), w.Pc(j));
      }
    }
  }

  lemma UpsertKeepsInv(w: World, i: nat)
    requires Inv(w) && ReadyToUpsert(w.Pc(i))
    ensures Inv(World(StoreControl(w.db, w.Pc(i).action).0, w.workers[i := Idle]))
  {
    var a := w.Pc(i).action;
    assert PcSound(w.db.changes, w.Pc(i));
    var v := World(StoreControl(w.db, a).0, w.workers[i := Idle]);
    StoreKeepsInv(w.db, a);
    forall j ensures PcSound(v.db.changes, v.Pc(j)) {
      assert PcSound(w.db.changes, w.Pc(j));
    }
  }

  lemma MoveKeepsInv(w: World, i: nat, pc: Pc)
    requires Inv(w) && PcSound(w.db.changes, pc)
    ensures Inv(w.At(i, pc))
  {
    forall j ensures PcSound(w.db.changes, w.At(i, pc).Pc(j)) {
      assert PcSound(w.db.changes, w.Pc(j));
    }
  }

  lemma RegisterVersionKeepsInv(w: World, signed: SignedVersion)
    requires Inv(w)
    ensures Inv(w.(db := RegisterVersionSpec(w.db, signed)))
  {
    var v := w.(db := RegisterVersionSpec(w.db, signed));
    ControlsFrame(w.db, v.db);
    forall j ensures PcSound(v.db.changes, v.Pc(j)) {
      assert PcSound(w.db.changes, w.Pc(j));
    }
  }

  lemma StepKeepsInv(w: World, s: Step, keys: Keys)
    requires Inv(w)
    ensures Inv(Next(w, s, keys))
  {
    match s {
      case BeginPublish(i, signed, a, approvals, _, _, _) =>
        MoveKeepsInv(w, i, Approved(signed, a, approvals));
      case ReadDigest(i) =>
        var pc := w.Pc(i);
        MoveKeepsInv(w, i, Idle);
        if pc.Approved? {
          MoveKeepsInv(w, i, Unpublished(pc.signed, pc.action, pc.approvals));
        }
      case ReadLatest(i) =>
        ReadLatestKeepsInv(w, i, keys);
      case InsertVersion(i) =>
        if w.Pc(i).Cleared? {
          InsertKeepsInv(w, i);
        }
      case BeginControl(i, a, _, _, _) =>
        MoveKeepsInv(w, i, Checking(a, 0));
      case ReadControl(i) =>
        ReadControlKeepsInv(w, i, keys);
      case UpsertControl(i) =>
        if ReadyToUpsert(w.Pc(i)) {
          UpsertKeepsInv(w, i);
        }
      case RegisterVersion(signed) =>
        RegisterVersionKeepsInv(w, signed);
      case Abandon(i) =>
        MoveKeepsInv(w, i, Idle);
    }
  }

  lemma ReadLatestKeepsInv(w: World, i: nat, keys: Keys)
    requires Inv(w)
    ensures Inv(Next(w, ReadLatest(i), keys))
  {
    var pc := w.Pc(i);
    MoveKeepsInv(w, i, Idle);
    if pc.Unpublished? && VersionError(w.db.changes, pc.signed.payload).None? {
      LatestReadSound(w.db.changes, pc.signed.payload);
      MoveKeepsInv(w, i, Cleared(pc.signed, pc.action, pc.approvals,
                                 |Lineage(w.db.changes, pc.signed.payload.policyId)|));
    }
  }

  lemma ReadControlKeepsInv(w: World, i: nat, keys: Keys)
    requires Inv(w)
    ensures Inv(Next(w, ReadControl(i), keys))
  {
    var pc := w.Pc(i);
    MoveKeepsInv(w, i, Idle);
    if pc.Checking? && pc.read < READS && ControlCheck(w.db, pc.action, pc.read).None? {
      assert PcSound(w.db.changes, pc);
      ControlReadSound(w.db, pc.action, pc.read);
      MoveKeepsInv(w, i, Checking(pc.action, pc.read + 1));
    }
  }

  /** Whatever overlaps: every version is a first one or names a stored version one
      lower as parent, no digest, change action, control action or approval is used
      twice, and every controlled policy's active digest is a governed member of
      its own lineage. */
  lemma {:induction false} RunKeepsInv(run: seq<Step>, trace: seq<World>, k: nat, keys: Keys)
    requires IsTrace(run, trace, keys) && k <= |run|
    ensures Inv(trace[k])
  {
    if k == 0 {
      assert forall i :: INITIAL.Pc(i) == Idle;
    } else {
      RunKeepsInv(run, trace, k - 1, keys);
      assert StepTaken(run, trace, k - 1, keys);
      StepKeepsInv(trace[k - 1], run[k - 1], keys);
    }
  }

  /** Step `b` begins this publication: the version is signed for its source, and a
      quorum approves exactly it. */
  ghost predicate BeginsAt(run: seq<Step>, b: int, signed: SignedVersion, a: GovernanceAction,
                           approvals: seq<ApprovalPayload>, keys: Keys)
  {
    && 0 <= b < |run| && run[b].BeginPublish?
    && run[b].signed == signed && run[b].action == a && run[b].approvals == approvals
    && SignedFor(signed, run[b].key, keys)
    && QuorumAccepts(a, approvals, run[b].policy, run[b].now, keys.approvals)
    && var v := signed.payload;
       a.body == PolicyChange(v.policyId, v.sha, v.version, v.sourceRef, v.parent)
  }

  ghost predicate Publishing(pc: Pc) {
    pc.Approved? || pc.Unpublished? || pc.Cleared?
  }

  lemma {:induction false} PublicationBegan(run: seq<Step>, trace: seq<World>, k: nat, i: nat, keys: Keys)
    returns (b: int)
    requires IsTrace(run, trace, keys) && k <= |run| && Publishing(trace[k].Pc(i))
    ensures b < k && BeginsAt(run, b, trace[k].Pc(i).signed, trace[k].Pc(i).action, trace[k].Pc(i).approvals, keys)
    decreases k
  {
    if k > 0 {
      assert StepTaken(run, trace, k - 1, keys);
      if Publishing(trace[k - 1].Pc(i)) && trace[k - 1].Pc(i).signed == trace[k].Pc(i).signed
         && trace[k - 1].Pc(i).action == trace[k].Pc(i).action
         && trace[k - 1].Pc(i).approvals == trace[k].Pc(i).approvals
      {
        b := PublicationBegan(run, trace, k - 1, i, keys);
      } else {
        b := k - 1;
      }
    }
  }

  /** In every run, whatever overlaps, each stored governed version was signed for its
      source, carries that source's policy id, and was approved by a quorum for exactly
      it, in a publication that began before it was stored. */
  lemma {:induction false} StoredWasGoverned(run: seq<Step>, trace: seq<World>, k: nat, c: Change, keys: Keys)
    returns (b: int, approvals: seq<ApprovalPayload>)
    requires IsTrace(run, trace, keys) && k <= |run| && c in trace[k].db.changes
    ensures b < k && BeginsAt(run, b, c.signed, c.action, approvals, keys)
    decreases k
  {
    if k > 0 {
      assert StepTaken(run, trace, k - 1, keys);
      if c in trace[k - 1].db.changes {
        b, approvals := StoredWasGoverned(run, trace, k - 1, c, keys);
      } else {
        var i := run[k - 1].worker;
        b := PublicationBegan(run, trace, k - 1, i, keys);
        approvals := trace[k - 1].Pc(i).approvals;
      }
    }
  }

  /** Step `b` begins this control under a quorum for it. */
  ghost predicate ControlsAt(run: seq<Step>, b: int, a: GovernanceAction, keys: Keys) {
    && 0 <= b < |run| && run[b].BeginControl? && run[b].action == a
    && QuorumAccepts(a, run[b].approvals, run[b].policy, run[b].now, keys.approvals)
  }

  lemma {:induction false} ControlBegan(run: seq<Step>, trace: seq<World>, k: nat, i: nat, keys: Keys)
    returns (b: int)
    requires IsTrace(run, trace, keys) && k <= |run| && trace[k].Pc(i).Checking?
    ensures b < k && ControlsAt(run, b, trace[k].Pc(i).action, keys)
    decreases k
  {
    if k > 0 {
      assert StepTaken(run, trace, k - 1, keys);
      if trace[k - 1].Pc(i).Checking? && trace[k - 1].Pc(i).action == trace[k].Pc(i).action {
        b := ControlBegan(run, trace, k - 1, i, keys);
      } else {
        b := k - 1;
      }
    }
  }

  /** Likewise every control that took effect had its quorum. */
  lemma {:induction false} ControlWasGoverned(run: seq<Step>, trace: seq<World>, k: nat, a: GovernanceAction,
                                              keys: Keys) returns (b: int)
    requires IsTrace(run, trace, keys) && k <= |run| && a in trace[k].db.actions
    ensures b < k && ControlsAt(run, b, a, keys)
    decreases k
  {
    if k > 0 {
      assert StepTaken(run, trace, k - 1, keys);
      if a in trace[k - 1].db.actions {
        b := ControlWasGoverned(run, trace, k - 1, a, keys);
      } else {
        b := ControlBegan(run, trace, k - 1, run[k - 1].worker, keys);
      }
    }
  }

  // ------------------------------------------------- when the versions are 1, 2, …, n

  /** Step `k` stores a version of the policy id. */
  ghost predicate Stores(run: seq<Step>, trace: seq<World>, k: nat, pid: string)
    requires k < |run| && |trace| == |run| + 1
  {
    && run[k].InsertVersion? && trace[k].Pc(run[k].worker).Cleared?
    && var pc := trace[k].Pc(run[k].worker);
       && pc.signed.payload.policyId == pid
       && RegisterChange(trace[k].db, pc.signed, pc.action, pc.approvals).1.None?
  }

  /** A version is stored with as many versions in place as its check saw. */
  ghost predicate Undisturbed(run: seq<Step>, trace: seq<World>, k: nat, pid: string)
    requires k < |run| && |trace| == |run| + 1
  {
    Stores(run, trace, k, pid) ==> trace[k].Pc(run[k].worker).seen == |Lineage(trace[k].db.changes, pid)|
  }

  lemma StepGrowsLineage(run: seq<Step>, trace: seq<World>, k: nat, pid: string, keys: Keys)
    requires IsTrace(run, trace, keys) && k < |run|
    ensures Stores(run, trace, k, pid) ==>
              Lineage(trace[k + 1].db.changes, pid)
                == Lineage(trace[k].db.changes, pid)
                   + [Change(trace[k].Pc(run[k].worker).signed, trace[k].Pc(run[k].worker).action)]
    ensures !Stores(run, trace, k, pid) ==> Lineage(trace[k + 1].db.changes, pid) == Lineage(trace[k].db.changes, pid)
  {
    assert StepTaken(run, trace, k, keys);
    if run[k].InsertVersion? && trace[k].Pc(run[k].worker).Cleared? {
      InsertGrowsLineage(trace[k], run[k].worker, pid, keys);
    } else {
      OnlyInsertsChange(trace[k], run[k], keys);
    }
  }

  lemma OnlyInsertsChange(w: World, s: Step, keys: Keys)
    requires !(s.InsertVersion? && w.Pc(s.worker).Cleared?)
    ensures Next(w, s, keys).db.changes == w.db.changes
  {
  }

  lemma InsertGrowsLineage(w: World, i: nat, pid: string, keys: Keys)
    requires w.Pc(i).Cleared?
    ensures var pc, u := w.Pc(i), Next(w, InsertVersion(i), keys).db;
            Lineage(u.changes, pid) ==
              if RegisterChange(w.db, pc.signed, pc.action, pc.approvals).1.None? && pc.signed.payload.policyId == pid
              then Lineage(w.db.changes, pid) + [Change(pc.signed, pc.action)] else Lineage(w.db.changes, pid)
  {
    var pc := w.Pc(i);
    LineageSnoc(w.db.changes, Change(pc.signed, pc.action), pid);
    assert Lineage(w.db.changes, pid) + [] == Lineage(w.db.changes, pid);
  }

  lemma StepGrowsLength(run: seq<Step>, trace: seq<World>, k: nat, pid: string, keys: Keys)
    requires IsTrace(run, trace, keys) && k < |run|
    ensures |Lineage(trace[k + 1].db.changes, pid)|
         == |Lineage(trace[k].db.changes, pid)| + if Stores(run, trace, k, pid) then 1 else 0
  {
    StepGrowsLineage(run, trace, k, pid, keys);
  }

  lemma LinesUpSnoc(line: seq<Change>, c: Change)
    ensures LinesUp(line + [c]) <==>
              && LinesUp(line)
              && c.Version() == |line| + 1 && c.Parent() == if line == [] then None else Some(Last(line).Sha())
  {
    var longer, n := line + [c], |line|;
    forall i | 0 <= i < n ensures Succeeds(longer, i) <==> Succeeds(line, i) {
    }
    assert Succeeds(longer, n) <==>
             c.Version() == n + 1 && c.Parent() == if line == [] then None else Some(Last(line).Sha());
    if LinesUp(longer) {
      forall i | 0 <= i < n ensures Succeeds(line, i) {
        assert Succeeds(longer, i);
      }
    }
    if LinesUp(line) {
      forall i | 0 <= i < n ensures Succeeds(longer, i) {
        assert Succeeds(line, i);
      }
    }
  }

  lemma LinesUpPrefix(line: seq<Change>, n: nat)
    requires LinesUp(line) && n <= |line|
    ensures LinesUp(line[..n])
  {
    forall i | 0 <= i < n ensures Succeeds(line[..n], i) {
      assert Succeeds(line, i);
    }
  }

  /** One step keeps the versions 1, 2, …, n exactly when it is undisturbed. */
  lemma StepLinesUp(run: seq<Step>, trace: seq<World>, k: nat, pid: string, keys: Keys)
    requires IsTrace(run, trace, keys) && k < |run|
    ensures LinesUp(Lineage(trace[k + 1].db.changes, pid)) <==>
              LinesUp(Lineage(trace[k].db.changes, pid)) && Undisturbed(run, trace, k, pid)
  {
    StepGrowsLineage(run, trace, k, pid, keys);
    if Stores(run, trace, k, pid) {
      var line, pc := Lineage(trace[k].db.changes, pid), trace[k].Pc(run[k].worker);
      LinesUpSnoc(line, Change(pc.signed, pc.action));
      if LinesUp(line) {
        RunKeepsInv(run, trace, k, keys);
        assert PcSound(trace[k].db.changes, pc);
        LinesUpPrefix(line, pc.seen);
      }
    }
  }

  /** For every run: the versions of a policy id are 1, 2, …, n, each naming its
      predecessor's digest, exactly when every stored version was undisturbed. */
  lemma {:induction false} VersionsLineUpExactly(run: seq<Step>, trace: seq<World>, n: nat, pid: string, keys: Keys)
    requires IsTrace(run, trace, keys) && n <= |run|
    ensures LinesUp(Lineage(trace[n].db.changes, pid)) <==>
              forall k {:trigger Undisturbed(run, trace, k, pid)} :: 0 <= k < n ==> Undisturbed(run, trace, k, pid)
  {
    if n > 0 {
      VersionsLineUpExactly(run, trace, n - 1, pid, keys);
      StepLinesUp(run, trace, n - 1, pid, keys);
    }
  }

  lemma {:induction false} LineageStands(run: seq<Step>, trace: seq<World>, r: nat, k: nat, pid: string, keys: Keys)
    requires IsTrace(run, trace, keys) && r <= k <= |run|
    ensures |Lineage(trace[r].db.changes, pid)| <= |Lineage(trace[k].db.changes, pid)|
    ensures |Lineage(trace[r].db.changes, pid)| == |Lineage(trace[k].db.changes, pid)| <==>
              forall j {:trigger Stores(run, trace, j, pid)} :: r <= j < k ==> !Stores(run, trace, j, pid)
    decreases k
  {
    if r < k {
      LineageStands(run, trace, r, k - 1, pid, keys);
      StepGrowsLength(run, trace, k - 1, pid, keys);
    }
  }

  /** Step `r` is the latest-version read that cleared the publication worker `i` is
      in at step `k`. */
  ghost predicate LatestReadAt(run: seq<Step>, trace: seq<World>, r: nat, k: nat, i: nat)
    requires k <= |run| && |trace| == |run| + 1
  {
    && r < k && run[r] == ReadLatest(i) && trace[r].Pc(i).Unpublished?
    && forall m :: r < m <= k ==> trace[m].Pc(i) == trace[k].Pc(i)
  }

  ghost function Worker(i: nat): World -> Pc {
    (w: World) => w.Pc(i)
  }

  lemma OnlyReadsClear(w: World, s: Step, i: nat, keys: Keys)
    requires Next(w, s, keys).Pc(i).Cleared? && Next(w, s, keys).Pc(i) != w.Pc(i)
    ensures s == ReadLatest(i) && w.Pc(i).Unpublished?
    ensures Next(w, s, keys).Pc(i).signed == w.Pc(i).signed
    ensures Next(w, s, keys).Pc(i).seen == |Lineage(w.db.changes, w.Pc(i).signed.payload.policyId)|
  {
  }

  /** Every cleared publication was cleared by a latest-version read of its own, and
      carries the number of versions that read saw. */
  lemma ClearedByRead(run: seq<Step>, trace: seq<World>, k: nat, i: nat, keys: Keys)
    requires IsTrace(run, trace, keys) && k <= |run| && trace[k].Pc(i).Cleared?
    ensures exists r: nat :: LatestReadAt(run, trace, r, k, i)
    ensures forall r: nat :: LatestReadAt(run, trace, r, k, i) ==>
              trace[k].Pc(i).seen == |Lineage(trace[r].db.changes, trace[k].Pc(i).signed.payload.policyId)|
  {
    assert Worker(i)(trace[k]) != Worker(i)(trace[0]);
    Traces.LastChange(trace, Worker(i), k);
    var r :| Traces.Entered(trace, Worker(i), r, k);
    assert forall m :: r < m <= k ==> Worker(i)(trace[m]) == trace[m].Pc(i);
    assert StepTaken(run, trace, r, keys) && Worker(i)(trace[r]) == trace[r].Pc(i);
    OnlyReadsClear(trace[r], run[r], i, keys);
    assert LatestReadAt(run, trace, r, k, i);
    forall r: nat | LatestReadAt(run, trace, r, k, i)
      ensures trace[k].Pc(i).seen == |Lineage(trace[r].db.changes, trace[k].Pc(i).signed.payload.policyId)|
    {
      assert StepTaken(run, trace, r, keys);
      OnlyReadsClear(trace[r], run[r], i, keys);
    }
  }

  /** What undisturbed means for a version stored at step `k`: since the
      latest-version read of its own publication no version of the policy id was
      stored. */
  lemma UndisturbedExactly(run: seq<Step>, trace: seq<World>, k: nat, pid: string, keys: Keys)
    requires IsTrace(run, trace, keys) && k < |run| && Stores(run, trace, k, pid)
    ensures exists r: nat :: LatestReadAt(run, trace, r, k, run[k].worker)
    ensures forall r: nat :: LatestReadAt(run, trace, r, k, run[k].worker) ==>
              (Undisturbed(run, trace, k, pid) <==>
                 forall j {:trigger Stores(run, trace, j, pid)} :: r <= j < k ==> !Stores(run, trace, j, pid))
  {
    var i := run[k].worker;
    ClearedByRead(run, trace, k, i, keys);
    forall r: nat | LatestReadAt(run, trace, r, k, i)
      ensures Undisturbed(run, trace, k, pid) <==>
                forall j {:trigger Stores(run, trace, j, pid)} :: r <= j < k ==> !Stores(run, trace, j, pid)
    {
      LineageStands(run, trace, r, k, pid, keys);
    }
  }

  // ---------------------------------------------------------------------- controls

  predicate IsRollbackOf(a: GovernanceAction, pid: string) {
    a.body.PolicyRollback? && a.body.policyId == pid
  }

  /** A rollback of the policy takes effect at this step. */
  ghost predicate RollsBack(w: World, s: Step, pid: string) {
    && s.UpsertControl? && ReadyToUpsert(w.Pc(s.worker))
    && IsRollbackOf(w.Pc(s.worker).action, pid) && !ControlTaken(w.db.actions, w.Pc(s.worker).action)
  }

  ghost predicate IsFrozen(db: PolicyDb, pid: string) {
    pid in db.controls && db.controls[pid].frozen
  }

  /** A frozen policy stays frozen over a step exactly when no rollback of it takes
      effect. */
  lemma FrozenExactly(w: World, s: Step, pid: string, keys: Keys)
    requires IsFrozen(w.db, pid)
    ensures IsFrozen(Next(w, s, keys).db, pid) <==> !RollsBack(w, s, pid)
  {
  }

  ghost predicate RollbackAt(run: seq<Step>, trace: seq<World>, j: nat, pid: string)
    requires j < |run| && |trace| == |run| + 1
  {
    RollsBack(trace[j], run[j], pid)
  }

  /** A freeze lasts through every interleaving until a rollback of the policy takes
      effect; until then the gate passes no digest of it. */
  lemma {:induction false} FreezeLastsUntilRollback(run: seq<Step>, trace: seq<World>, i: nat, k: nat, pid: string,
                                                    keys: Keys)
    requires IsTrace(run, trace, keys) && i <= k <= |run| && IsFrozen(trace[i].db, pid)
    requires forall j {:trigger RollbackAt(run, trace, j, pid)} :: i <= j < k ==> !RollbackAt(run, trace, j, pid)
    ensures IsFrozen(trace[k].db, pid)
    decreases k
  {
    if i < k {
      FreezeLastsUntilRollback(run, trace, i, k - 1, pid, keys);
      assert StepTaken(run, trace, k - 1, keys) && !RollbackAt(run, trace, k - 1, pid);
      FrozenExactly(trace[k - 1], run[k - 1], pid, keys);
    }
  }

  lemma FrozenPassesNothing(run: seq<Step>, trace: seq<World>, i: nat, k: nat, pid: string, sha: string, version: int,
                            sourceRef: string, parent: Option<string>, keys: Keys)
    requires IsTrace(run, trace, keys) && i <= k <= |run| && IsFrozen(trace[i].db, pid)
    requires forall j {:trigger RollbackAt(run, trace, j, pid)} :: i <= j < k ==> !RollbackAt(run, trace, j, pid)
    ensures GatePasses(trace[k].db, sha, version, sourceRef, parent) ==>
              Governed(trace[k].db.changes, sha).value.PolicyId() != pid
  {
    FreezeLastsUntilRollback(run, trace, i, k, pid, keys);
  }

  /** What a control does when it takes effect: it records its action, new by id and
      nonce, and moves its own policy to a governed digest of that policy, frozen
      for a freeze, and for a rollback the digest of the version it names. */
  lemma UpsertEffect(w: World, i: nat, keys: Keys)
    requires Inv(w) && ReadyToUpsert(w.Pc(i)) && !ControlTaken(w.db.actions, w.Pc(i).action)
    ensures var a, u := w.Pc(i).action, Next(w, UpsertControl(i), keys).db;
            && u.actions == w.db.actions + [a]
            && u.controls == w.db.controls[a.body.policyId := Control(TargetOf(a), a.body.PolicyFreeze?)]
            && IsMember(w.db.changes, a.body.policyId, TargetOf(a))
            && (a.body.PolicyRollback? ==>
                  IsVersion(w.db.changes, a.body.policyId, a.body.target, a.body.targetVersion))
  {
    assert PcSound(w.db.changes, w.Pc(i));
  }

  /** Every other step leaves the controls and the recorded actions. */
  lemma OnlyUpsertsControl(w: World, s: Step, keys: Keys)
    ensures var u := Next(w, s, keys).db;
            u.controls != w.db.controls || u.actions != w.db.actions ==>
              s.UpsertControl? && ReadyToUpsert(w.Pc(s.worker)) && !ControlTaken(w.db.actions, w.Pc(s.worker).action)
  {
  }

  /** Step `j` changes the policy's control. */
  ghost predicate Controls(run: seq<Step>, trace: seq<World>, j: nat, pid: string)
    requires j < |run| && |trace| == |run| + 1
  {
    && run[j].UpsertControl? && ReadyToUpsert(trace[j].Pc(run[j].worker))
    && trace[j].Pc(run[j].worker).action.body.policyId == pid
    && !ControlTaken(trace[j].db.actions, trace[j].Pc(run[j].worker).action)
  }

  ghost predicate SameControl(db: PolicyDb, u: PolicyDb, pid: string) {
    (pid in db.controls <==> pid in u.controls) && (pid in db.controls ==> u.controls[pid] == db.controls[pid])
  }

  lemma StepSameControl(run: seq<Step>, trace: seq<World>, j: nat, pid: string, keys: Keys)
    requires IsTrace(run, trace, keys) && j < |run| && !Controls(run, trace, j, pid)
    ensures SameControl(trace[j].db, trace[j + 1].db, pid)
  {
    assert StepTaken(run, trace, j, keys);
  }

  /** The control finds what its row read promised: the policy is uncontrolled or
      active on the digest the action names, and not frozen if it is to be frozen. */
  ghost predicate ActsOnActive(db: PolicyDb, a: GovernanceAction)
    requires a.body.PolicyFreeze? || a.body.PolicyRollback?
  {
    a.body.policyId in db.controls ==>
      && db.controls[a.body.policyId].active == a.body.current
      && (a.body.PolicyFreeze? ==> !db.controls[a.body.policyId].frozen)
  }

  /** Controls of the policy took effect between steps `r` and `k` only if the last
      of them left the digest `a` names active, and, for a freeze, was a rollback. */
  ghost predicate LastControlFits(run: seq<Step>, trace: seq<World>, r: nat, k: nat, a: GovernanceAction)
    requires k <= |run| && |trace| == |run| + 1 && (a.body.PolicyFreeze? || a.body.PolicyRollback?)
    decreases k
  {
    r < k ==>
      if Controls(run, trace, k - 1, a.body.policyId) then
        var last := trace[k - 1].Pc(run[k - 1].worker).action;
        TargetOf(last) == a.body.current && (a.body.PolicyFreeze? ==> last.body.PolicyRollback?)
      else LastControlFits(run, trace, r, k - 1, a)
  }

  lemma ControlsSets(run: seq<Step>, trace: seq<World>, j: nat, pid: string, keys: Keys)
    requires IsTrace(run, trace, keys) && j < |run| && Controls(run, trace, j, pid)
    ensures var b, u := trace[j].Pc(run[j].worker).action, trace[j + 1].db;
            pid in u.controls && u.controls[pid] == Control(TargetOf(b), b.body.PolicyFreeze?)
  {
    assert StepTaken(run, trace, j, keys);
  }

  lemma {:induction false} FitsExactly(run: seq<Step>, trace: seq<World>, r: nat, k: nat, a: GovernanceAction,
                                       keys: Keys)
    requires IsTrace(run, trace, keys) && r <= k <= |run| && (a.body.PolicyFreeze? || a.body.PolicyRollback?)
    requires ControlCheck(trace[r].db, a, 2).None?
    ensures ActsOnActive(trace[k].db, a) <==> LastControlFits(run, trace, r, k, a)
    decreases k
  {
    if r < k {
      if Controls(run, trace, k - 1, a.body.policyId) {
        ControlsSets(run, trace, k - 1, a.body.policyId, keys);
      } else {
        FitsExactly(run, trace, r, k - 1, a, keys);
        StepSameControl(run, trace, k - 1, a.body.policyId, keys);
      }
    }
  }

  /** Step `r` is the control-row read of the control worker `i` has checked at
      step `k`. */
  ghost predicate RowReadAt(run: seq<Step>, trace: seq<World>, r: nat, k: nat, i: nat)
    requires k <= |run| && |trace| == |run| + 1 && trace[k].Pc(i).Checking?
  {
    && r < k && run[r] == ReadControl(i) && trace[r].Pc(i) == Checking(trace[k].Pc(i).action, 2)
    && forall m :: r < m <= k ==> trace[m].Pc(i).Checking? && trace[m].Pc(i).read > 2
  }

  lemma OnlyReadsCheck(w: World, s: Step, i: nat, keys: Keys)
    requires Next(w, s, keys).Pc(i).Checking? && Next(w, s, keys).Pc(i) != w.Pc(i)
    requires Next(w, s, keys).Pc(i).read > 0
    ensures var pc := Next(w, s, keys).Pc(i);
            && s == ReadControl(i) && w.Pc(i) == Checking(pc.action, pc.read - 1)
            && ControlCheck(w.db, pc.action, pc.read - 1).None?
  {
  }

  /** A control that has passed `n` reads passed the last of them at some step. */
  lemma CheckedByRead(run: seq<Step>, trace: seq<World>, k: nat, i: nat, keys: Keys) returns (r: nat)
    requires IsTrace(run, trace, keys) && k <= |run| && trace[k].Pc(i).Checking? && trace[k].Pc(i).read > 0
    ensures var pc := trace[k].Pc(i);
            && r < k && run[r] == ReadControl(i) && trace[r].Pc(i) == Checking(pc.action, pc.read - 1)
            && ControlCheck(trace[r].db, pc.action, pc.read - 1).None?
    ensures forall m :: r < m <= k ==> trace[m].Pc(i) == trace[k].Pc(i)
  {
    assert Worker(i)(trace[k]) != Worker(i)(trace[0]);
    Traces.LastChange(trace, Worker(i), k);
    r :| Traces.Entered(trace, Worker(i), r, k);
    assert forall m :: r < m <= k ==> Worker(i)(trace[m]) == trace[m].Pc(i);
    assert StepTaken(run, trace, r, keys) && Worker(i)(trace[r]) == trace[r].Pc(i);
    OnlyReadsCheck(trace[r], run[r], i, keys);
  }

  /** Exactly when an overlapped control that passed its checks still acts on the
      active digest, and freezes only what is not frozen: if controls of the policy
      took effect since it read the control row, the last of them left its digest
      active and, for a freeze, unfrozen. */
  lemma ControlActsOnActiveExactly(run: seq<Step>, trace: seq<World>, k: nat, i: nat, keys: Keys)
    requires IsTrace(run, trace, keys) && k <= |run| && ReadyToUpsert(trace[k].Pc(i))
    ensures exists r: nat :: RowReadAt(run, trace, r, k, i)
    ensures forall r: nat :: RowReadAt(run, trace, r, k, i) ==>
              (ActsOnActive(trace[k].db, trace[k].Pc(i).action) <==>
                 LastControlFits(run, trace, r, k, trace[k].Pc(i).action))
  {
    var t := CheckedByRead(run, trace, k, i, keys);
    var r := CheckedByRead(run, trace, t, i, keys);
    assert RowReadAt(run, trace, r, k, i);
    forall r: nat | RowReadAt(run, trace, r, k, i)
      ensures ActsOnActive(trace[k].db, trace[k].Pc(i).action) <==>
                LastControlFits(run, trace, r, k, trace[k].Pc(i).action)
    {
      assert StepTaken(run, trace, r, keys) && trace[r + 1].Pc(i).read > 2;
      FitsExactly(run, trace, r, k, trace[k].Pc(i).action, keys);
    }
  }

  /** Where it does not: from every store where a freeze of the current digest
      and a rollback away from it both pass their checks, the rollback may take
      effect first and the freeze then makes the abandoned digest active again,
      frozen. */
  lemma StaleFreezeReactivates(w: World, i: nat, freeze: GovernanceAction, j: nat, rollback: GovernanceAction,
                               keys: Keys)
    requires i != j && w.Pc(i) == Checking(freeze, 0) && w.Pc(j) == Checking(rollback, 0)
    requires freeze.body.PolicyFreeze? && IsRollbackOf(rollback, freeze.body.policyId)
    requires ControlError(w.db, freeze).None? && ControlError(w.db, rollback).None?
    requires !ControlTaken(w.db.actions, freeze) && !ControlTaken(w.db.actions, rollback)
    requires freeze.actionId != rollback.actionId && freeze.nonce != rollback.nonce
    ensures var pid := freeze.body.policyId;
            var u := WholeCheck(WholeCheck(w, i, keys), j, keys);
            var rolled := Next(u, UpsertControl(j), keys);
            var frozen := Next(rolled, UpsertControl(i), keys);
            && pid in rolled.db.controls && rolled.db.controls[pid] == Control(rollback.body.target, false)
            && pid in frozen.db.controls && frozen.db.controls[pid] == Control(freeze.body.current, true)
            && (pid in w.db.controls ==> freeze.body.current == rollback.body.current)
  {
    ReadsCheck(w, i, freeze, keys);
    var v := WholeCheck(w, i, keys);
    ReadsStay(w, i, j, keys);
    ReadsCheck(v, j, rollback, keys);
    ReadsStay(v, j, i, keys);
    UpsertBoth(WholeCheck(v, j, keys), i, freeze, j, rollback, keys);
  }

  /** One worker's reads leave the others where they are. */
  lemma ReadsStay(w: World, i: nat, j: nat, keys: Keys)
    requires i != j
    ensures WholeCheck(w, i, keys).Pc(j) == w.Pc(j)
  {
    var w1 := Next(w, ReadControl(i), keys);
    var w2 := Next(w1, ReadControl(i), keys);
    var w3 := Next(w2, ReadControl(i), keys);
    assert w1.Pc(j) == w.Pc(j) && w2.Pc(j) == w.Pc(j) && w3.Pc(j) == w.Pc(j);
  }

  lemma UpsertBoth(u: World, i: nat, freeze: GovernanceAction, j: nat, rollback: GovernanceAction, keys: Keys)
    requires i != j && u.Pc(i) == Checking(freeze, READS) && u.Pc(j) == Checking(rollback, READS)
    requires freeze.body.PolicyFreeze? && IsRollbackOf(rollback, freeze.body.policyId)
    requires !ControlTaken(u.db.actions, freeze) && !ControlTaken(u.db.actions, rollback)
    requires freeze.actionId != rollback.actionId && freeze.nonce != rollback.nonce
    ensures var pid := freeze.body.policyId;
            var rolled := Next(u, UpsertControl(j), keys);
            var frozen := Next(rolled, UpsertControl(i), keys);
            && pid in rolled.db.controls && rolled.db.controls[pid] == Control(rollback.body.target, false)
            && pid in frozen.db.controls && frozen.db.controls[pid] == Control(freeze.body.current, true)
  {
    var rolled := Next(u, UpsertControl(j), keys);
    assert rolled.db.actions == u.db.actions + [rollback] && rolled.Pc(i) == Checking(freeze, READS);
    assert !ControlTaken(rolled.db.actions, freeze);
  }

  // ----------------------------------------------------------- uninterrupted calls

  /** The four steps of one publication, with nothing between, are the whole call. */
  lemma UninterruptedPublish(w: World, i: nat, signed: SignedVersion, a: GovernanceAction,
                             approvals: seq<ApprovalPayload>,
                             policy: GovernancePolicy, key: string, now: real, keys: Keys)
    requires w.Pc(i) == Idle
    ensures var w1 := Next(w, BeginPublish(i, signed, a, approvals, policy, key, now), keys);
            var w3 := Next(Next(w1, ReadDigest(i), keys), ReadLatest(i), keys);
            Next(w3, InsertVersion(i), keys).db == PublishSpec(w.db, signed, a, approvals, policy, key, now, keys).0
  {
    var w1 := Next(w, BeginPublish(i, signed, a, approvals, policy, key, now), keys);
    if w1.Pc(i) == Idle {
      assert Next(w1, ReadDigest(i), keys) == w1;
    }
  }

  /** The four reads of a control, with nothing between. */
  ghost function WholeCheck(w: World, i: nat, keys: Keys): World {
    Next(Next(Next(Next(w, ReadControl(i), keys), ReadControl(i), keys), ReadControl(i), keys), ReadControl(i), keys)
  }

  lemma ReadsCheck(w: World, i: nat, a: GovernanceAction, keys: Keys)
    requires w.Pc(i) == Checking(a, 0)
    ensures var v := WholeCheck(w, i, keys);
            v.db == w.db && v.Pc(i) == if ControlError(w.db, a).None? then Checking(a, READS) else Idle
  {
    var w1 := Next(w, ReadControl(i), keys);
    var w2 := Next(w1, ReadControl(i), keys);
    assert ControlCheck(w.db, a, 0).Some? ==> w1.Pc(i) == Idle && w2 == w1;
    assert ControlCheck(w.db, a, 0).None? ==> w1 == w.At(i, Checking(a, 1));
    var w3 := Next(w2, ReadControl(i), keys);
    assert w2.Pc(i) == Idle ==> w3 == w2;
  }

  /** So are the steps of one control. */
  lemma UninterruptedControl(w: World, i: nat, a: GovernanceAction, approvals: seq<ApprovalPayload>,
                             policy: GovernancePolicy, now: real, keys: Keys)
    requires w.Pc(i) == Idle
    ensures var w1 := Next(w, BeginControl(i, a, approvals, policy, now), keys);
            Next(WholeCheck(w1, i, keys), UpsertControl(i), keys).db
                == ControlSpec(w.db, a, approvals, policy, now, keys).0
  {
    var w1 := Next(w, BeginControl(i, a, approvals, policy, now), keys);
    if w1.Pc(i) == Checking(a, 0) {
      ReadsCheck(w1, i, a, keys);
    } else {
      assert WholeCheck(w1, i, keys) == w1;
    }
  }
}
