/** The execution boundary (enforcement/router.py, enforcement/local.py and the
    nonce and receipt tables of core/storage.py): any number of workers, their
    steps interleaved in any order, crashing at any point. */
module Execution {
  import opened Common

  /** The id is a digest of the decision receipt's signature and the nonce. */
  datatype AuthorizationId = AuthorizationId(signature: string, nonce: string)

  datatype Authorization = Authorization(
    signature: string, intentId: string, agentId: string, nonce: string, issuedAt: int, expiresAt: int)
  {
    function Id(): AuthorizationId {
      AuthorizationId(signature, nonce)
    }
  }

  datatype ReceiptStatus = Submitted | Confirmed | Failed

  datatype Receipt = Receipt(
    receiptId: string, authorizationId: AuthorizationId, status: ReceiptStatus, transactionRef: Option<string>)

  datatype NonceRow = NonceRow(authorizationId: AuthorizationId, intentId: string, agentId: string)

  /** One call of a broadcaster or side-effect callback, with what it returned. */
  datatype Effect = Effect(authorization: Authorization, result: Option<string>)

  /** `issued` is the set of authorizations carrying a valid signature. */
  datatype Db = Db(
    issued: set<Authorization>,
    nonces: map<string, NonceRow>,
    receipts: map<AuthorizationId, Receipt>,
    effects: seq<Effect>)

  const MAX_TTL := 300

  // ------------------------------------------------------- storage operations

  /** Minting refuses any nonce but the intent id, and lifetimes outside (0, 300]. */
  function Issue(db: Db, signature: string, intentId: string, agentId: string, nonce: string, now: int, ttl: int): Db {
    if nonce != intentId || ttl <= 0 || ttl > MAX_TTL then db
    else db.(issued := db.issued + {Authorization(signature, intentId, agentId, nonce, now, now + ttl)})
  }

  /** Minting signs exactly for the nonce that is the intent id and a lifetime of one to
      300 seconds. */
  lemma SignsExactly(db: Db, signature: string, intentId: string, agentId: string, nonce: string, now: int, ttl: int)
    ensures var u := Issue(db, signature, intentId, agentId, nonce, now, ttl);
            && u.issued == (if nonce == intentId && 1 <= ttl <= 300
                            then db.issued + {Authorization(signature, intentId, agentId, nonce, now, now + ttl)}
                            else db.issued)
            && u.nonces == db.nonces && u.receipts == db.receipts && u.effects == db.effects
  {
  }

  predicate VerifyAuthorization(db: Db, a: Authorization, now: int) {
    a in db.issued && a.issuedAt <= now <= a.expiresAt && a.issuedAt < a.expiresAt
  }

  /** `INSERT` with the nonce as primary key. */
  function ConsumeNonce(db: Db, a: Authorization): Option<Db> {
    if a.nonce in db.nonces then None
    else Some(db.(nonces := db.nonces[a.nonce := NonceRow(a.Id(), a.intentId, a.agentId)]))
  }

  /** The authorization id and the receipt id are both unique. */
  function RecordReceipt(db: Db, r: Receipt): Option<Db> {
    if r.authorizationId in db.receipts
       || exists k :: k in db.receipts && db.receipts[k].receiptId == r.receiptId then None
    else Some(db.(receipts := db.receipts[r.authorizationId := r]))
  }

  /** `UPDATE ... WHERE authorization_id = ?`: status and reference are replaced,
      the row's receipt id column is not. */
  function UpdateReceipt(db: Db, r: Receipt): Option<Db> {
    if r.authorizationId !in db.receipts then None
    else Some(db.(receipts := db.receipts[r.authorizationId :=
      db.receipts[r.authorizationId].(status := r.status, transactionRef := r.transactionRef)]))
  }

  // ------------------------------------------------------------ the interleaving

  /** Where a worker stands inside one `execute` or `execute_with_receipt` call. */
  datatype Pc =
    | Idle
    | Started(auth: Authorization, receipted: bool)
    | Verified(auth: Authorization, receipted: bool)
    | Holding(auth: Authorization, receipted: bool)
    | Sent(auth: Authorization, ref: string)
    | Failing(auth: Authorization)

  datatype World = World(db: Db, workers: map<nat, Pc>)

  function PcOf(w: World, i: nat): Pc {
    if i in w.workers then w.workers[i] else Idle
  }

  datatype ConfirmationState = Pending | IsConfirmed | IsFailed | Unknown

  datatype Step =
    | IssueStep(signature: string, intentId: string, agentId: string, nonce: string, now: int, ttl: int)
    | Start(worker: nat, auth: Authorization, receipted: bool)
    | Verify(worker: nat, now: int, otherChecks: bool)
    | Consume(worker: nat)
    | Broadcast(worker: nat, result: Option<string>)
    | Record(worker: nat, receiptId: string)
    | Crash(worker: nat)
    | Confirm(passed: Receipt, state: ConfirmationState, ref: Option<string>)

  /** A failed receipted call goes on to record a FAILED receipt; a failed direct
      call raises. */
  function AfterFailure(auth: Authorization, receipted: bool): Pc {
    if receipted then Failing(auth) else Idle
  }

  function ApplyConfirm(db: Db, passed: Receipt, state: ConfirmationState, ref: Option<string>): Db {
    var chosen := if ref.Some? && ref.value != "" then ref else passed.transactionRef;
    if state.Pending? || passed.status != Submitted || state.Unknown? then db
    else if chosen.GetOr("") == "" || chosen != passed.transactionRef then db
    else
      var updated := UpdateReceipt(db, passed.(status := if state.IsConfirmed? then Confirmed else Failed));
      if updated.Some? then updated.value else db
  }

  function Next(w: World, s: Step): World {
    match s
    case IssueStep(signature, intentId, agentId, nonce, now, ttl) =>
      w.(db := Issue(w.db, signature, intentId, agentId, nonce, now, ttl))
    case Start(i, auth, receipted) =>
      if PcOf(w, i) != Idle || (receipted && auth.Id() in w.db.receipts) then w
      else w.(workers := w.workers[i := Started(auth, receipted)])
    case Verify(i, now, otherChecks) =>
      var pc := PcOf(w, i);
      if !pc.Started? then w
      else if VerifyAuthorization(w.db, pc.auth, now) && otherChecks then
        w.(workers := w.workers[i := Verified(pc.auth, pc.receipted)])
      else w.(workers := w.workers[i := AfterFailure(pc.auth, pc.receipted)])
    case Consume(i) =>
      var pc := PcOf(w, i);
      if !pc.Verified? then w
      else
        var consumed := ConsumeNonce(w.db, pc.auth);
        if consumed.Some? then World(consumed.value, w.workers[i := Holding(pc.auth, pc.receipted)])
        else w.(workers := w.workers[i := AfterFailure(pc.auth, pc.receipted)])
    case Broadcast(i, result) =>
      var pc := PcOf(w, i);
      if !pc.Holding? then w
      else
        World(w.db.(effects := w.db.effects + [Effect(pc.auth, result)]),
              w.workers[i := if !pc.receipted then Idle
                             else if result.GetOr("") != "" then Sent(pc.auth, result.value)
                             else Failing(pc.auth)])
    case Record(i, receiptId) =>
      var pc := PcOf(w, i);
      if !pc.Sent? && !pc.Failing? then w
      else
        var receipt := if pc.Sent? then Receipt(receiptId, pc.auth.Id(), Submitted, Some(pc.ref))
                       else Receipt(receiptId, pc.auth.Id(), Failed, None);
        var recorded := RecordReceipt(w.db, receipt);
        World(if recorded.Some? then recorded.value else w.db, w.workers[i := Idle])
    case Crash(i) => w.(workers := w.workers[i := Idle])
    case Confirm(passed, state, ref) => w.(db := ApplyConfirm(w.db, passed, state, ref))
  }

  const INITIAL := World(Db({}, map[], map[], []), map[])

  function Run(steps: seq<Step>): World {
    if steps == [] then INITIAL else Next(Run(steps[..|steps| - 1]), Last(steps))
  }

  // -------------------------------------------------------------- the invariant

  ghost predicate IssuedBound(db: Db) {
    forall a :: a in db.issued ==> a.nonce == a.intentId
  }

  /** The nonce row that `a` left behind when it was consumed. */
  ghost predicate ConsumedBy(db: Db, a: Authorization) {
    a in db.issued && a.nonce in db.nonces && db.nonces[a.nonce] == NonceRow(a.Id(), a.intentId, a.agentId)
  }

  ghost predicate NonceHasEffect(db: Db, nonce: string) {
    exists k :: 0 <= k < |db.effects| && db.effects[k].authorization.nonce == nonce
  }

  ghost predicate EffectsConsumed(db: Db) {
    && (forall k :: 0 <= k < |db.effects| ==> ConsumedBy(db, db.effects[k].authorization))
    && (forall j, k :: 0 <= j < k < |db.effects| ==>
          db.effects[j].authorization.nonce != db.effects[k].authorization.nonce)
  }

  /** A worker past its checks holds a signed authorization; one that consumed a
      nonce and has not acted yet holds that nonce alone. */
  ghost predicate WorkersConsistent(w: World) {
    && (forall i :: i in w.workers && (w.workers[i].Verified? || w.workers[i].Holding?) ==>
          w.workers[i].auth in w.db.issued)
    && (forall i :: i in w.workers && w.workers[i].Holding? ==>
          ConsumedBy(w.db, w.workers[i].auth) && !NonceHasEffect(w.db, w.workers[i].auth.nonce))
    && (forall i, j :: i in w.workers && j in w.workers && i != j
                       && w.workers[i].Holding? && w.workers[j].Holding? ==>
          w.workers[i].auth.nonce != w.workers[j].auth.nonce)
    && (forall i :: i in w.workers && w.workers[i].Sent? ==>
          Effect(w.workers[i].auth, Some(w.workers[i].ref)) in w.db.effects)
  }

  /** Some broadcast under exactly this authorization returned this reference. */
  ghost predicate Backed(db: Db, id: AuthorizationId, ref: Option<string>) {
    exists k :: 0 <= k < |db.effects| && db.effects[k].authorization.Id() == id && db.effects[k].result == ref
  }

  ghost predicate SubmittedBacked(db: Db) {
    forall id :: id in db.receipts ==>
      && db.receipts[id].authorizationId == id
      && (db.receipts[id].status == Submitted ==> Backed(db, id, db.receipts[id].transactionRef))
  }

  ghost predicate Inv(w: World) {
    IssuedBound(w.db) && EffectsConsumed(w.db) && WorkersConsistent(w) && SubmittedBacked(w.db)
  }

  lemma MoreEffectsKeepBacking(a: Db, e: Effect)
    requires SubmittedBacked(a)
    ensures SubmittedBacked(a.(effects := a.effects + [e]))
  {
    var b := a.(effects := a.effects + [e]);
    forall id | id in b.receipts && b.receipts[id].status == Submitted
      ensures Backed(b, id, b.receipts[id].transactionRef)
    {
      assert Backed(a, id, a.receipts[id].transactionRef);
      var k :| 0 <= k < |a.effects| && a.effects[k].authorization.Id() == id
                && a.effects[k].result == a.receipts[id].transactionRef;
      assert b.effects[k] == a.effects[k];
    }
  }

  ghost predicate PcSound(db: Db, pc: Pc) {
    && (pc.Verified? || pc.Holding? ==> pc.auth in db.issued)
    && (pc.Holding? ==> ConsumedBy(db, pc.auth) && !NonceHasEffect(db, pc.auth.nonce))
    && (pc.Sent? ==> Effect(pc.auth, Some(pc.ref)) in db.effects)
  }

  ghost predicate Grows(db: Db, u: Db) {
    && db.issued <= u.issued && db.effects <= u.effects
    && forall n :: n in db.nonces ==> n in u.nonces && u.nonces[n] == db.nonces[n]
  }

  /** The other workers stay consistent when the tables grow, no other's held nonce
      gets an effect, and worker `i` ends up sound, holding a nonce of its own. */
  lemma WorkerMoves(w: World, u: Db, i: nat, pc: Pc)
    requires WorkersConsistent(w) && Grows(w.db, u) && PcSound(u, pc)
    requires forall j :: j in w.workers && j != i && w.workers[j].Holding? ==>
               !NonceHasEffect(u, w.workers[j].auth.nonce) && (pc.Holding? ==> w.workers[j].auth.nonce != pc.auth.nonce)
    ensures WorkersConsistent(World(u, w.workers[i := pc]))
  {
    assert forall x :: x in w.db.effects ==> x in u.effects;
  }

  lemma EffectsStay(db: Db, u: Db)
    requires u.effects == db.effects
    ensures forall n :: NonceHasEffect(u, n) <==> NonceHasEffect(db, n)
  {
    forall n ensures NonceHasEffect(u, n) <==> NonceHasEffect(db, n) {
      if NonceHasEffect(db, n) {
        var k :| 0 <= k < |db.effects| && db.effects[k].authorization.nonce == n;
        assert u.effects[k].authorization.nonce == n;
      }
    }
  }

  lemma NewEffect(db: Db, e: Effect)
    ensures forall n :: NonceHasEffect(db.(effects := db.effects + [e]), n) <==>
                          NonceHasEffect(db, n) || n == e.authorization.nonce
  {
    var u := db.(effects := db.effects + [e]);
    assert u.effects[|db.effects|] == e;
    forall n ensures NonceHasEffect(u, n) <==> NonceHasEffect(db, n) || n == e.authorization.nonce {
      if NonceHasEffect(db, n) {
        var k :| 0 <= k < |db.effects| && db.effects[k].authorization.nonce == n;
        assert u.effects[k].authorization.nonce == n;
      }
    }
  }

  lemma OneMoreEffect(db: Db, e: Effect)
    requires EffectsConsumed(db) && ConsumedBy(db, e.authorization) && !NonceHasEffect(db, e.authorization.nonce)
    ensures EffectsConsumed(db.(effects := db.effects + [e]))
  {
    var u := db.(effects := db.effects + [e]);
    forall k | 0 <= k < |db.effects| ensures u.effects[k].authorization.nonce != e.authorization.nonce {
      assert db.effects[k].authorization.nonce == u.effects[k].authorization.nonce;
    }
  }

  lemma BroadcastKeepsInv(w: World, i: nat, result: Option<string>)
    requires Inv(w)
    ensures Inv(Next(w, Broadcast(i, result)))
  {
    var pc := PcOf(w, i);
    if pc.Holding? {
      var v, e := Next(w, Broadcast(i, result)), Effect(pc.auth, result);
      MoreEffectsKeepBacking(w.db, e);
      OneMoreEffect(w.db, e);
      NewEffect(w.db, e);
      assert Last(v.db.effects) == e;
      WorkerMoves(w, v.db, i, PcOf(v, i));
    }
  }

  lemma ConsumeKeepsInv(w: World, i: nat)
    requires Inv(w)
    ensures Inv(Next(w, Consume(i)))
  {
    var pc := PcOf(w, i);
    if pc.Verified? {
      var v := Next(w, Consume(i));
      SameTablesKeepBacking(w.db, v.db);
      EffectsStay(w.db, v.db);
      FreshNonceHasNoEffect(w.db, pc.auth.nonce);
      WorkerMoves(w, v.db, i, PcOf(v, i));
    }
  }

  lemma FreshNonceHasNoEffect(db: Db, nonce: string)
    requires EffectsConsumed(db)
    ensures NonceHasEffect(db, nonce) ==> nonce in db.nonces
  {
  }

  lemma RecordKeepsInv(w: World, i: nat, receiptId: string)
    requires Inv(w)
    ensures Inv(Next(w, Record(i, receiptId)))
  {
    var pc := PcOf(w, i);
    if pc.Sent? || pc.Failing? {
      var v := Next(w, Record(i, receiptId));
      RecordKeepsBacking(w, i, receiptId);
      EffectsStay(w.db, v.db);
      WorkerMoves(w, v.db, i, Idle);
    }
  }

  lemma RecordKeepsBacking(w: World, i: nat, receiptId: string)
    requires WorkersConsistent(w) && SubmittedBacked(w.db)
    ensures SubmittedBacked(Next(w, Record(i, receiptId)).db)
  {
    var pc, u := PcOf(w, i), Next(w, Record(i, receiptId)).db;
    forall id | id in u.receipts && u.receipts[id].status == Submitted
      ensures Backed(u, id, u.receipts[id].transactionRef)
    {
      if id in w.db.receipts && u.receipts[id] == w.db.receipts[id] {
        assert Backed(w.db, id, w.db.receipts[id].transactionRef);
      } else {
        assert Effect(pc.auth, Some(pc.ref)) in u.effects;
      }
    }
  }

  /** A worker that only moves on, without touching the tables. */
  lemma MoveKeepsInv(w: World, i: nat, pc: Pc)
    requires Inv(w) && !pc.Holding? && PcSound(w.db, pc)
    ensures Inv(w.(workers := w.workers[i := pc]))
  {
    WorkerMoves(w, w.db, i, pc);
  }

  lemma IssueKeepsInv(w: World, signature: string, intentId: string, agentId: string, nonce: string, now: int, ttl: int)
    requires Inv(w)
    ensures Inv(Next(w, IssueStep(signature, intentId, agentId, nonce, now, ttl)))
  {
    var u := Issue(w.db, signature, intentId, agentId, nonce, now, ttl);
    SameTablesKeepBacking(w.db, u);
    EffectsStay(w.db, u);
  }

  lemma StepKeepsInv(w: World, s: Step)
    requires Inv(w)
    ensures Inv(Next(w, s))
  {
    match s
    case IssueStep(signature, intentId, agentId, nonce, now, ttl) =>
      IssueKeepsInv(w, signature, intentId, agentId, nonce, now, ttl);
    case Start(i, auth, receipted) => MoveKeepsInv(w, i, Started(auth, receipted));
    case Verify(i, now, otherChecks) =>
      if PcOf(w, i).Started? {
        MoveKeepsInv(w, i, PcOf(Next(w, s), i));
      }
    case Consume(i) => ConsumeKeepsInv(w, i);
    case Broadcast(i, result) => BroadcastKeepsInv(w, i, result);
    case Record(i, receiptId) => RecordKeepsInv(w, i, receiptId);
    case Crash(i) => MoveKeepsInv(w, i, Idle);
    case Confirm(passed, state, ref) => ConfirmKeepsInv(w, passed, state, ref);
  }

  lemma SameTablesKeepBacking(a: Db, b: Db)
    requires a.effects == b.effects && a.receipts == b.receipts && SubmittedBacked(a)
    ensures SubmittedBacked(b)
  {
    forall id | id in b.receipts && b.receipts[id].status == Submitted
      ensures Backed(b, id, b.receipts[id].transactionRef)
    {
      assert Backed(a, id, a.receipts[id].transactionRef);
    }
  }

  lemma ConfirmKeepsInv(w: World, passed: Receipt, state: ConfirmationState, ref: Option<string>)
    requires Inv(w)
    ensures Inv(Next(w, Confirm(passed, state, ref)))
  {
    var v := Next(w, Confirm(passed, state, ref));
    EffectsStay(w.db, v.db);
    forall id | id in v.db.receipts && v.db.receipts[id].status == Submitted
      ensures Backed(v.db, id, v.db.receipts[id].transactionRef)
    {
      assert Backed(w.db, id, w.db.receipts[id].transactionRef);
    }
  }

  lemma {:induction false} RunKeepsInv(steps: seq<Step>)
    ensures Inv(Run(steps))
  {
    if steps != [] {
      RunKeepsInv(steps[..|steps| - 1]);
      StepKeepsInv(Run(steps[..|steps| - 1]), Last(steps));
    }
  }

  // ------------------------------------------------------------ what every run keeps

  /** At most one side effect per intent id, over every interleaving. */
  lemma AtMostOneEffectPerIntent(steps: seq<Step>, j: nat, k: nat)
    requires j < |Run(steps).db.effects| && k < |Run(steps).db.effects|
    requires Run(steps).db.effects[j].authorization.intentId == Run(steps).db.effects[k].authorization.intentId
    ensures j == k
  {
    RunKeepsInv(steps);
  }

  /** Step `i` signs this authorization: its nonce is the intent id and it lives for at
      most 300 seconds. */
  ghost predicate SignedAt(steps: seq<Step>, i: int, a: Authorization) {
    && 0 <= i < |steps| && a.nonce == a.intentId && a.issuedAt < a.expiresAt <= a.issuedAt + 300
    && steps[i] == IssueStep(a.signature, a.intentId, a.agentId, a.nonce, a.issuedAt, a.expiresAt - a.issuedAt)
  }

  /** Step `v` is a worker's check of this authorization, within its lifetime and with
      every other check passed. */
  ghost predicate CheckedAt(steps: seq<Step>, v: int, worker: nat, a: Authorization) {
    && 0 <= v < |steps| && steps[v].Verify? && steps[v].worker == worker && steps[v].otherChecks
    && a.issuedAt <= steps[v].now <= a.expiresAt
    && PcOf(Run(steps[..v]), worker).Started? && PcOf(Run(steps[..v]), worker).auth == a
  }

  lemma {:induction false} WasSigned(steps: seq<Step>, a: Authorization) returns (i: int)
    requires a in Run(steps).db.issued
    ensures SignedAt(steps, i, a)
  {
    var front := steps[..|steps| - 1];
    if a in Run(front).db.issued {
      i := WasSigned(front, a);
    } else {
      i := |front|;
    }
  }

  lemma CheckLasts(steps: seq<Step>, v: int, worker: nat, a: Authorization)
    requires steps != [] && CheckedAt(steps[..|steps| - 1], v, worker, a)
    ensures CheckedAt(steps, v, worker, a)
  {
    assert steps[..|steps| - 1][..v] == steps[..v];
  }

  lemma {:induction false} WasChecked(steps: seq<Step>, worker: nat) returns (i: int, v: int)
    requires PcOf(Run(steps), worker).Verified?
    ensures i < v && SignedAt(steps, i, PcOf(Run(steps), worker).auth)
    ensures CheckedAt(steps, v, worker, PcOf(Run(steps), worker).auth)
  {
    var front := steps[..|steps| - 1];
    var a := PcOf(Run(steps), worker).auth;
    if PcOf(Run(front), worker) == PcOf(Run(steps), worker) {
      i, v := WasChecked(front, worker);
      CheckLasts(steps, v, worker, a);
    } else {
      i := WasSigned(front, a);
      v := |front|;
    }
  }

  lemma {:induction false} WasConsumed(steps: seq<Step>, worker: nat) returns (i: int, v: int, c: int)
    requires PcOf(Run(steps), worker).Holding?
    ensures i < v < c < |steps| && SignedAt(steps, i, PcOf(Run(steps), worker).auth)
    ensures CheckedAt(steps, v, worker, PcOf(Run(steps), worker).auth) && steps[c] == Consume(worker)
  {
    var front := steps[..|steps| - 1];
    if PcOf(Run(front), worker) == PcOf(Run(steps), worker) {
      i, v, c := WasConsumed(front, worker);
    } else {
      i, v := WasChecked(front, worker);
      c := |front|;
    }
    CheckLasts(steps, v, worker, PcOf(Run(steps), worker).auth);
  }

  /** Every side effect of every run was signed for at most 300 seconds, then checked by
      its worker within that time, then had its nonce consumed by that worker, and only
      then happened. */
  lemma {:induction false} EffectWasChecked(steps: seq<Step>, k: nat)
    returns (worker: nat, i: int, v: int, c: int, b: int)
    requires k < |Run(steps).db.effects|
    ensures var e := Run(steps).db.effects[k];
            && i < v < c < b < |steps| && SignedAt(steps, i, e.authorization)
            && CheckedAt(steps, v, worker, e.authorization)
            && steps[c] == Consume(worker) && steps[b] == Broadcast(worker, e.result)
  {
    var front := steps[..|steps| - 1];
    var e := Run(steps).db.effects[k];
    if k < |Run(front).db.effects| {
      worker, i, v, c, b := EffectWasChecked(front, k);
    } else {
      worker, b := Last(steps).worker, |front|;
      i, v, c := WasConsumed(front, worker);
    }
    CheckLasts(steps, v, worker, e.authorization);
  }

  ghost predicate Unreceipted(pc: Pc) {
    !pc.Sent? && !pc.Failing? && (pc.Started? || pc.Verified? || pc.Holding? ==> !pc.receipted)
  }

  /** Direct calls leave no receipts, whatever becomes of them. */
  lemma {:induction false} DirectCallsLeaveNoReceipts(steps: seq<Step>)
    requires forall k :: 0 <= k < |steps| && steps[k].Start? ==> !steps[k].receipted
    ensures Run(steps).db.receipts == map[]
    ensures forall i: nat {:trigger PcOf(Run(steps), i)} :: Unreceipted(PcOf(Run(steps), i))
  {
    if steps != [] {
      var front := steps[..|steps| - 1];
      DirectCallsLeaveNoReceipts(front);
      forall i: nat ensures Unreceipted(PcOf(Run(steps), i)) {
        assert Unreceipted(PcOf(Run(front), i));
      }
      if Last(steps).Record? {
        assert Unreceipted(PcOf(Run(front), Last(steps).worker));
      }
    }
  }

  /** Every SUBMITTED receipt has exactly one broadcast behind it, made under that
      authorization and returning the receipt's reference, and that
      authorization's own consumption of the nonce. */
  lemma SubmittedHasOneBroadcast(steps: seq<Step>, id: AuthorizationId)
    requires id in Run(steps).db.receipts && Run(steps).db.receipts[id].status == Submitted
    ensures var db := Run(steps).db;
            exists k :: 0 <= k < |db.effects|
              && db.effects[k].authorization.Id() == id
              && db.effects[k].result == db.receipts[id].transactionRef
              && (forall j :: 0 <= j < |db.effects| && db.effects[j].authorization.Id() == id ==> j == k)
              && id.nonce in db.nonces && db.nonces[id.nonce].authorizationId == id
  {
    RunKeepsInv(steps);
    var db := Run(steps).db;
    assert Backed(db, id, db.receipts[id].transactionRef);
    var k :| 0 <= k < |db.effects| && db.effects[k].authorization.Id() == id
              && db.effects[k].result == db.receipts[id].transactionRef;
    assert ConsumedBy(db, db.effects[k].authorization);
  }

  /** Receipts that claim an effect: submitted, confirmed, or failed after
      having been submitted. */
  ghost predicate ClaimsBacked(db: Db) {
    forall id :: id in db.receipts && db.receipts[id].transactionRef.Some? ==>
      Backed(db, id, db.receipts[id].transactionRef)
  }

  /** A confirmation leaves the row, passes the reference the row already has, or
      passes one that a broadcast under this authorization returned. */
  ghost predicate Harmless(db: Db, passed: Receipt, state: ConfirmationState, ref: Option<string>) {
    || ApplyConfirm(db, passed, state, ref) == db
    || passed.transactionRef == db.receipts[passed.authorizationId].transactionRef
    || Backed(db, passed.authorizationId, passed.transactionRef)
  }

  /** One confirmation keeps "every reference has its broadcast" exactly when it is
      harmless. */
  lemma ConfirmationSafeExactly(db: Db, passed: Receipt, state: ConfirmationState, ref: Option<string>)
    requires ClaimsBacked(db)
    ensures ClaimsBacked(ApplyConfirm(db, passed, state, ref)) <==> Harmless(db, passed, state, ref)
  {
    var u, id := ApplyConfirm(db, passed, state, ref), passed.authorizationId;
    if u != db {
      assert u.effects == db.effects && u.receipts[id].transactionRef == passed.transactionRef;
      assert Backed(u, id, passed.transactionRef) <==> Backed(db, id, passed.transactionRef);
      if Harmless(db, passed, state, ref) {
        forall x | x in u.receipts && u.receipts[x].transactionRef.Some?
          ensures Backed(u, x, u.receipts[x].transactionRef)
        {
          assert Backed(db, x, u.receipts[x].transactionRef);
          var k :| 0 <= k < |db.effects| && db.effects[k].authorization.Id() == x
                    && db.effects[k].result == u.receipts[x].transactionRef;
          assert u.effects[k] == db.effects[k];
        }
      }
    }
  }

  /** What a caller can check: with nothing broadcast under the authorization, a
      confirmation that changes the row is never safe, and with the stored
      reference in hand it always is. */
  lemma ConfirmationCheck(db: Db, passed: Receipt, state: ConfirmationState, ref: Option<string>)
    requires ClaimsBacked(db) && ApplyConfirm(db, passed, state, ref) != db
    ensures passed.authorizationId in db.receipts
    ensures (forall k :: 0 <= k < |db.effects| ==> db.effects[k].authorization.Id() != passed.authorizationId) ==>
              !ClaimsBacked(ApplyConfirm(db, passed, state, ref))
    ensures passed.transactionRef == db.receipts[passed.authorizationId].transactionRef ==>
              ClaimsBacked(ApplyConfirm(db, passed, state, ref))
  {
    ConfirmationSafeExactly(db, passed, state, ref);
    if passed.transactionRef == db.receipts[passed.authorizationId].transactionRef {
      assert Backed(db, passed.authorizationId, passed.transactionRef);
    }
  }

  /** A step that is not a confirmation never leaves a reference without its
      broadcast. */
  lemma OtherStepsKeepClaims(w: World, s: Step)
    requires Inv(w) && ClaimsBacked(w.db) && !s.Confirm?
    ensures ClaimsBacked(Next(w, s).db)
  {
    var v := Next(w, s);
    assert forall e :: e in w.db.effects ==> e in v.db.effects;
    forall id | id in v.db.receipts && v.db.receipts[id].transactionRef.Some?
      ensures Backed(v.db, id, v.db.receipts[id].transactionRef)
    {
      if id in w.db.receipts && w.db.receipts[id].transactionRef == v.db.receipts[id].transactionRef {
        assert Backed(w.db, id, w.db.receipts[id].transactionRef);
        var k :| 0 <= k < |w.db.effects| && w.db.effects[k].authorization.Id() == id
                  && w.db.effects[k].result == w.db.receipts[id].transactionRef;
        assert w.db.effects[k] in v.db.effects;
      } else {
        var pc := PcOf(w, s.worker);
        assert Effect(pc.auth, Some(pc.ref)) in v.db.effects;
      }
    }
  }

  ghost predicate HarmlessAt(steps: seq<Step>, k: nat)
    requires k < |steps|
  {
    steps[k].Confirm? ==> Harmless(Run(steps[..k]).db, steps[k].passed, steps[k].state, steps[k].ref)
  }

  ghost predicate ClaimsBackedAt(steps: seq<Step>, k: nat)
    requires k <= |steps|
  {
    ClaimsBacked(Run(steps[..k]).db)
  }

  lemma StepClaims(steps: seq<Step>, k: nat)
    requires k < |steps| && ClaimsBackedAt(steps, k)
    ensures ClaimsBackedAt(steps, k + 1) <==> HarmlessAt(steps, k)
  {
    var w := Run(steps[..k]);
    RunKeepsInv(steps[..k]);
    assert steps[..k + 1][..k] == steps[..k] && Last(steps[..k + 1]) == steps[k];
    if steps[k].Confirm? {
      ConfirmationSafeExactly(w.db, steps[k].passed, steps[k].state, steps[k].ref);
    } else {
      OtherStepsKeepClaims(w, steps[k]);
    }
  }

  /** For every run: at every point every referenced receipt has its broadcast,
      exactly when every confirmation of the run was harmless. */
  lemma {:induction false} ClaimsBackedExactly(steps: seq<Step>, n: nat)
    requires n <= |steps|
    ensures (forall k {:trigger ClaimsBackedAt(steps, k)} :: 0 <= k <= n ==> ClaimsBackedAt(steps, k))
       <==> (forall k {:trigger HarmlessAt(steps, k)} :: 0 <= k < n ==> HarmlessAt(steps, k))
  {
    if n == 0 {
      assert Run(steps[..0]) == INITIAL;
      assert ClaimsBackedAt(steps, 0);
    } else {
      ClaimsBackedExactly(steps, n - 1);
      if ClaimsBackedAt(steps, n - 1) {
        StepClaims(steps, n - 1);
      }
    }
  }

  /** Every confirmation passes the reference of the row it addresses. */
  ghost predicate ConfirmsStored(steps: seq<Step>) {
    forall k {:trigger HarmlessAt(steps, k)} :: 0 <= k < |steps| && steps[k].Confirm? ==>
      var db := Run(steps[..k]).db;
      steps[k].passed.authorizationId in db.receipts ==>
        db.receipts[steps[k].passed.authorizationId].transactionRef == steps[k].passed.transactionRef
  }

  /** A CONFIRMED row always carries a reference. */
  lemma {:induction false} ConfirmedHasReference(steps: seq<Step>)
    ensures forall id :: id in Run(steps).db.receipts && Run(steps).db.receipts[id].status == Confirmed ==>
              Run(steps).db.receipts[id].transactionRef.Some?
  {
    if steps != [] {
      ConfirmedHasReference(steps[..|steps| - 1]);
    }
  }

  /** When confirmations only ever pass the stored reference, every CONFIRMED
      receipt has a reference and every referenced receipt its broadcast. */
  lemma ConfirmedHasBroadcast(steps: seq<Step>)
    requires ConfirmsStored(steps)
    ensures ClaimsBacked(Run(steps).db)
    ensures forall id :: id in Run(steps).db.receipts && Run(steps).db.receipts[id].status == Confirmed ==>
              Backed(Run(steps).db, id, Run(steps).db.receipts[id].transactionRef)
  {
    forall k | 0 <= k < |steps| ensures HarmlessAt(steps, k) {
    }
    ClaimsBackedExactly(steps, |steps|);
    assert ClaimsBackedAt(steps, |steps|) && steps[..|steps|] == steps;
    ConfirmedHasReference(steps);
  }

  /** Without that discipline a row can read CONFIRMED with no broadcast at all:
      a rejected call leaves a FAILED receipt, and a confirmation handed another
      receipt for the same authorization overwrites it. */
  lemma ForeignReceiptConfirms(auth: Authorization, ref: string)
    requires ref != ""
    ensures var steps := [Start(0, auth, true), Verify(0, 0, false), Record(0, "r"),
                          Confirm(Receipt("r", auth.Id(), Submitted, Some(ref)), IsConfirmed, None)];
            && auth.Id() in Run(steps).db.receipts
            && Run(steps).db.receipts[auth.Id()].status == Confirmed
            && Run(steps).db.effects == []
  {
    var s0, s1, s2 := Start(0, auth, true), Verify(0, 0, false), Record(0, "r");
    var s3 := Confirm(Receipt("r", auth.Id(), Submitted, Some(ref)), IsConfirmed, None);
    assert [s0][..0] == [] && [s0, s1][..1] == [s0] && [s0, s1, s2][..2] == [s0, s1];
    assert [s0, s1, s2, s3][..3] == [s0, s1, s2];
    assert Run([s0]) == Next(INITIAL, s0);
    assert Run([s0, s1]) == Next(Run([s0]), s1);
    assert Run([s0, s1, s2]) == Next(Run([s0, s1]), s2);
    assert Run([s0, s1, s2]).db.receipts == map[auth.Id() := Receipt("r", auth.Id(), Failed, None)];
    assert Run([s0, s1, s2, s3]) == Next(Run([s0, s1, s2]), s3);
  }

  // ------------------------------------------------ broadcasts no receipt speaks of

  predicate Referenced(e: Effect, id: AuthorizationId) {
    e.authorization.Id() == id && e.result.GetOr("") != ""
  }

  /** Something was broadcast under this authorization and returned a reference. */
  ghost predicate WasBroadcast(db: Db, id: AuthorizationId) {
    exists k :: 0 <= k < |db.effects| && Referenced(db.effects[k], id)
  }

  /** A worker holds such a reference and has not recorded it yet. */
  ghost predicate IsPending(w: World, id: AuthorizationId) {
    exists i: nat {:trigger PcOf(w, i)} :: PcOf(w, i).Sent? && PcOf(w, i).auth.Id() == id
  }

  /** The step drops it: the worker crashes, or its record is refused because the
      authorization or the receipt id already has a row. */
  ghost predicate Loses(w: World, s: Step, id: AuthorizationId) {
    && (s.Crash? || s.Record?) && PcOf(w, s.worker).Sent? && PcOf(w, s.worker).auth.Id() == id
    && (s.Record? ==> RecordReceipt(w.db, Receipt(s.receiptId, id, Submitted, Some(PcOf(w, s.worker).ref))).None?)
  }

  /** The step is a direct call, which hands the reference to its caller. */
  ghost predicate HandsOver(w: World, s: Step, id: AuthorizationId) {
    && s.Broadcast? && PcOf(w, s.worker).Holding? && !PcOf(w, s.worker).receipted
    && Referenced(Effect(PcOf(w, s.worker).auth, s.result), id)
  }

  ghost predicate UnreportedAt(steps: seq<Step>, k: nat, id: AuthorizationId)
    requires k < |steps|
  {
    Loses(Run(steps[..k]), steps[k], id) || HandsOver(Run(steps[..k]), steps[k], id)
  }

  ghost predicate Unreported(steps: seq<Step>, id: AuthorizationId) {
    || IsPending(Run(steps), id)
    || exists k {:trigger UnreportedAt(steps, k, id)} :: 0 <= k < |steps| && UnreportedAt(steps, k, id)
  }

  ghost predicate HasReference(db: Db, id: AuthorizationId) {
    id in db.receipts && db.receipts[id].transactionRef.Some?
  }

  /** No step takes a reference out of a receipt. */
  lemma ReferenceStays(w: World, s: Step, id: AuthorizationId)
    requires HasReference(w.db, id)
    ensures HasReference(Next(w, s).db, id)
  {
  }

  /** Where a reference is after the step that broadcasts it. */
  lemma NewBroadcast(w: World, s: Step, id: AuthorizationId)
    requires !WasBroadcast(w.db, id) && WasBroadcast(Next(w, s).db, id)
    ensures IsPending(Next(w, s), id) || HandsOver(w, s, id)
  {
    var v := Next(w, s);
    var k :| 0 <= k < |v.db.effects| && Referenced(v.db.effects[k], id);
    assert s.Broadcast? && v.db.effects[k] == Effect(PcOf(w, s.worker).auth, s.result);
    assert PcOf(v, s.worker) == v.workers[s.worker];
  }

  /** Where a pending reference is after any step. */
  lemma PendingMoves(w: World, s: Step, id: AuthorizationId)
    requires IsPending(w, id)
    ensures IsPending(Next(w, s), id) || Loses(w, s, id) || HasReference(Next(w, s).db, id)
  {
    var v := Next(w, s);
    var i: nat :| PcOf(w, i).Sent? && PcOf(w, i).auth.Id() == id;
    if (s.Crash? || s.Record?) && s.worker == i {
      var receipt := if s.Record? then Receipt(s.receiptId, id, Submitted, Some(PcOf(w, i).ref))
                     else Receipt("", id, Failed, None);
      assert s.Record? && RecordReceipt(w.db, receipt).Some? ==> v.db == RecordReceipt(w.db, receipt).value;
    } else {
      assert PcOf(v, i) == PcOf(w, i);
    }
  }

  lemma UnreportedStays(steps: seq<Step>, k: nat, id: AuthorizationId)
    requires steps != [] && k < |steps| - 1 && UnreportedAt(steps[..|steps| - 1], k, id)
    ensures UnreportedAt(steps, k, id)
  {
    assert steps[..|steps| - 1][..k] == steps[..k];
  }

  /** No reference vanishes: it is in the authorization's receipt, or unreported. */
  lemma {:induction false} BroadcastAccounted(steps: seq<Step>, id: AuthorizationId)
    requires WasBroadcast(Run(steps).db, id)
    ensures HasReference(Run(steps).db, id) || Unreported(steps, id)
  {
    if steps != [] {
      var n := |steps| - 1;
      var front, s := steps[..n], Last(steps);
      if WasBroadcast(Run(front).db, id) {
        BroadcastAccounted(front, id);
        if HasReference(Run(front).db, id) {
          ReferenceStays(Run(front), s, id);
        } else if IsPending(Run(front), id) {
          PendingMoves(Run(front), s, id);
          assert Loses(Run(front), s, id) ==> UnreportedAt(steps, n, id);
        } else {
          var k :| 0 <= k < n && UnreportedAt(front, k, id);
          UnreportedStays(steps, k, id);
        }
      } else {
        NewBroadcast(Run(front), s, id);
        assert HandsOver(Run(front), s, id) ==> UnreportedAt(steps, n, id);
      }
    }
  }

  /** A reference in a worker's hands is never empty. */
  lemma {:induction false} SentHasReference(steps: seq<Step>)
    ensures forall i: nat {:trigger PcOf(Run(steps), i)} :: PcOf(Run(steps), i).Sent? ==> PcOf(Run(steps), i).ref != ""
  {
    if steps != [] {
      var w, v := Run(steps[..|steps| - 1]), Run(steps);
      SentHasReference(steps[..|steps| - 1]);
      forall i: nat | PcOf(v, i).Sent? ensures PcOf(v, i).ref != "" {
        assert PcOf(w, i).Sent? ==> PcOf(w, i).ref != "";
      }
    }
  }

  lemma SentWasBroadcast(steps: seq<Step>, i: nat)
    requires PcOf(Run(steps), i).Sent?
    ensures WasBroadcast(Run(steps).db, PcOf(Run(steps), i).auth.Id())
  {
    RunKeepsInv(steps);
    SentHasReference(steps);
    var w := Run(steps);
    assert Effect(w.workers[i].auth, Some(w.workers[i].ref)) in w.db.effects;
    var k :| 0 <= k < |w.db.effects| && w.db.effects[k] == Effect(w.workers[i].auth, Some(w.workers[i].ref));
    assert Referenced(w.db.effects[k], w.workers[i].auth.Id());
  }

  lemma BroadcastStays(w: World, s: Step, id: AuthorizationId)
    requires WasBroadcast(w.db, id)
    ensures WasBroadcast(Next(w, s).db, id)
  {
    var k :| 0 <= k < |w.db.effects| && Referenced(w.db.effects[k], id);
    assert Next(w, s).db.effects[k] == w.db.effects[k];
  }

  lemma {:induction false} BroadcastLasts(steps: seq<Step>, k: nat, id: AuthorizationId)
    requires k <= |steps| && WasBroadcast(Run(steps[..k]).db, id)
    ensures WasBroadcast(Run(steps).db, id)
    decreases |steps|
  {
    if k < |steps| {
      var front := steps[..|steps| - 1];
      assert front[..k] == steps[..k];
      BroadcastLasts(front, k, id);
      BroadcastStays(Run(front), Last(steps), id);
    } else {
      assert steps[..k] == steps;
    }
  }

  lemma {:induction false} UnreportedWasBroadcast(steps: seq<Step>, k: nat, id: AuthorizationId)
    requires k < |steps| && UnreportedAt(steps, k, id)
    ensures WasBroadcast(Run(steps).db, id)
  {
    var w, s := Run(steps[..k]), steps[k];
    if Loses(w, s, id) {
      SentWasBroadcast(steps[..k], s.worker);
      BroadcastLasts(steps, k, id);
    } else {
      assert steps[..k + 1][..k] == steps[..k] && Last(steps[..k + 1]) == s;
      var v := Run(steps[..k + 1]);
      assert v.db.effects[|w.db.effects|] == Effect(PcOf(w, s.worker).auth, s.result);
      BroadcastLasts(steps, k + 1, id);
    }
  }

  /** Exactly when an authorization whose receipt carries no reference, a FAILED one
      or none at all, has a broadcast behind it: its reference is still to be
      recorded, was dropped by a crash or a refused record, or went to a direct
      caller. Then its nonce was consumed under this very authorization, which the
      table shows. */
  lemma {:induction false} UnreportedExactly(steps: seq<Step>, id: AuthorizationId)
    requires !HasReference(Run(steps).db, id)
    ensures WasBroadcast(Run(steps).db, id) <==> Unreported(steps, id)
    ensures WasBroadcast(Run(steps).db, id) ==>
              id.nonce in Run(steps).db.nonces && Run(steps).db.nonces[id.nonce].authorizationId == id
  {
    if WasBroadcast(Run(steps).db, id) {
      BroadcastAccounted(steps, id);
      RunKeepsInv(steps);
      var k :| 0 <= k < |Run(steps).db.effects| && Referenced(Run(steps).db.effects[k], id);
      assert ConsumedBy(Run(steps).db, Run(steps).db.effects[k].authorization);
    }
    if Unreported(steps, id) {
      if i: nat :| PcOf(Run(steps), i).Sent? && PcOf(Run(steps), i).auth.Id() == id {
        SentWasBroadcast(steps, i);
      } else {
        var k :| 0 <= k < |steps| && UnreportedAt(steps, k, id);
        UnreportedWasBroadcast(steps, k, id);
      }
    }
  }

  const AUTH := Authorization("signature", "intent", "agent", "intent", 0, 300)

  /** Two workers hold one authorization; the second finds the nonce consumed and
      records its failure before the first records its broadcast. */
  const RACE: seq<Step> :=
    [] + [IssueStep("signature", "intent", "agent", "intent", 0, 300)] + [Start(0, AUTH, true)] + [Start(1, AUTH, true)]
    + [Verify(0, 1, true)] + [Verify(1, 1, true)] + [Consume(0)] + [Consume(1)] + [Record(1, "second")]
    + [Broadcast(0, Some("hash"))] + [Record(0, "first")]

  lemma RunSnoc(steps: seq<Step>, s: Step)
    ensures Run(steps + [s]) == Next(Run(steps), s)
  {
    assert (steps + [s])[..|steps|] == steps;
  }

  lemma RaceUpToConsume()
    ensures var steps := [] + [IssueStep("signature", "intent", "agent", "intent", 0, 300)] + [Start(0, AUTH, true)]
                         + [Start(1, AUTH, true)] + [Verify(0, 1, true)] + [Verify(1, 1, true)];
            var w := Run(steps);
            && PcOf(w, 0) == Verified(AUTH, true) && PcOf(w, 1) == Verified(AUTH, true)
            && w.db == Db({AUTH}, map[], map[], [])
  {
    var s1 := [] + [IssueStep("signature", "intent", "agent", "intent", 0, 300)];
    var s3 := s1 + [Start(0, AUTH, true)] + [Start(1, AUTH, true)];
    RunSnoc([], IssueStep("signature", "intent", "agent", "intent", 0, 300));
    RunSnoc(s1, Start(0, AUTH, true));
    RunSnoc(s1 + [Start(0, AUTH, true)], Start(1, AUTH, true));
    RunSnoc(s3, Verify(0, 1, true));
    RunSnoc(s3 + [Verify(0, 1, true)], Verify(1, 1, true));
  }

  /** The authorization's receipt reads FAILED, without a reference, although its
      broadcast returned one. */
  lemma FailedRowHidesBroadcast()
    ensures var db := Run(RACE).db;
            && db.receipts == map[AUTH.Id() := Receipt("second", AUTH.Id(), Failed, None)]
            && db.effects == [Effect(AUTH, Some("hash"))]
  {
    var s5 := [] + [IssueStep("signature", "intent", "agent", "intent", 0, 300)] + [Start(0, AUTH, true)]
              + [Start(1, AUTH, true)] + [Verify(0, 1, true)] + [Verify(1, 1, true)];
    RaceUpToConsume();
    RunSnoc(s5, Consume(0));
    RunSnoc(s5 + [Consume(0)], Consume(1));
    RunSnoc(s5 + [Consume(0)] + [Consume(1)], Record(1, "second"));
    RunSnoc(s5 + [Consume(0)] + [Consume(1)] + [Record(1, "second")], Broadcast(0, Some("hash")));
    RunSnoc(s5 + [Consume(0)] + [Consume(1)] + [Record(1, "second")] + [Broadcast(0, Some("hash"))],
            Record(0, "first"));
  }

  // ------------------------------------------------------------- the calls themselves

  /** One `execute_with_receipt` call that no other worker interrupts. */
  function WholeCall(db: Db, a: Authorization, now: int, otherChecks: bool, result: Option<string>,
                     receiptId: string): Db {
    var started := Next(World(db, map[]), Start(0, a, true));
    var consumed := Next(Next(started, Verify(0, now, otherChecks)), Consume(0));
    Next(Next(consumed, Broadcast(0, result)), Record(0, receiptId)).db
  }

  /** One `execute` call, without a receipt. */
  function WholeDirectCall(db: Db, a: Authorization, now: int, otherChecks: bool, result: Option<string>): Db {
    var started := Next(World(db, map[]), Start(0, a, false));
    Next(Next(Next(started, Verify(0, now, otherChecks)), Consume(0)), Broadcast(0, result)).db
  }

  predicate Admissible(db: Db, a: Authorization, now: int, otherChecks: bool) {
    a in db.issued && a.issuedAt <= now <= a.expiresAt && a.issuedAt < a.expiresAt && otherChecks
    && a.nonce !in db.nonces
  }

  /** What the steps of a direct call come to: the nonce row and the effect, or
      nothing. */
  lemma DirectCallIs(db: Db, a: Authorization, now: int, otherChecks: bool, result: Option<string>)
    ensures WholeDirectCall(db, a, now, otherChecks, result) ==
              if !Admissible(db, a, now, otherChecks) then db
              else db.(nonces := db.nonces[a.nonce := NonceRow(a.Id(), a.intentId, a.agentId)],
                       effects := db.effects + [Effect(a, result)])
  {
  }

  /** What the steps of a receipted call come to: nothing if it has a receipt, else
      the direct call and a receipt for its outcome. */
  lemma ReceiptedCallIs(db: Db, a: Authorization, now: int, otherChecks: bool, result: Option<string>,
                        receiptId: string)
    ensures WholeCall(db, a, now, otherChecks, result, receiptId) ==
              if a.Id() in db.receipts then db
              else
                var sent := WholeDirectCall(db, a, now, otherChecks, result);
                RecordReceipt(sent, OutcomeReceipt(db, a, now, otherChecks, result, receiptId)).GetOr(sent)
  {
    DirectCallIs(db, a, now, otherChecks, result);
  }

  function OutcomeReceipt(db: Db, a: Authorization, now: int, otherChecks: bool, result: Option<string>,
                          receiptId: string)
    : Receipt
  {
    if Admissible(db, a, now, otherChecks) && result.GetOr("") != "" then Receipt(receiptId, a.Id(), Submitted, result)
    else Receipt(receiptId, a.Id(), Failed, None)
  }

  datatype ExecutionError = Rejected | AlreadyConsumed | ReceiptAlreadyRecorded

  datatype ConfirmationError = InvalidState | ReferenceMissing | ReferenceMismatch | ReceiptNotFound

  class ExecutionRouter {
    var issued: set<Authorization>
    var nonces: map<string, NonceRow>
    var receipts: map<AuthorizationId, Receipt>
    var effects: seq<Effect>

    ghost function State(): Db
      reads this
    {
      Db(issued, nonces, receipts, effects)
    }

    constructor ()
      ensures State() == INITIAL.db
    {
      issued, nonces, receipts, effects := {}, map[], map[], [];
    }

    /** The insert decides: the nonce's primary key admits one winner. */
    method ConsumeOnce(a: Authorization) returns (consumed: bool)
      modifies this`nonces
      ensures consumed <==> a.nonce !in old(nonces)
      ensures consumed ==> Some(State()) == ConsumeNonce(old(State()), a)
      ensures !consumed ==> State() == old(State()) && ConsumeNonce(old(State()), a) == None
    {
      consumed := a.nonce !in nonces;
      if consumed {
        nonces := nonces[a.nonce := NonceRow(a.Id(), a.intentId, a.agentId)];
      }
    }

    /** `result` is what the broadcaster returns when it is called. */
    method Execute(a: Authorization, now: int, otherChecks: bool, result: Option<string>)
      returns (r: Result<Option<string>, ExecutionError>)
      modifies this`nonces, this`effects
      ensures State() == WholeDirectCall(old(State()), a, now, otherChecks, result)
      ensures r == Err(Rejected) <==>
                !(a in old(issued) && otherChecks && a.issuedAt <= now <= a.expiresAt && a.issuedAt < a.expiresAt)
      ensures r == Err(AlreadyConsumed) <==> r != Err(Rejected) && a.nonce in old(nonces)
      ensures r.Ok? <==> r != Err(Rejected) && a.nonce !in old(nonces)
      ensures r.Ok? ==> r.value == result && effects == old(effects) + [Effect(a, result)]
      ensures r.Ok? ==> nonces == old(nonces)[a.nonce := NonceRow(AuthorizationId(a.signature, a.nonce), a.intentId,
                                                                  a.agentId)]
      ensures r.Err? ==> State() == old(State())
    {
      DirectCallIs(State(), a, now, otherChecks, result);
      if !(a in issued && a.issuedAt <= now <= a.expiresAt && a.issuedAt < a.expiresAt && otherChecks) {
        return Err(Rejected);
      }
      var consumed := ConsumeOnce(a);
      if !consumed {
        return Err(AlreadyConsumed);
      }
      effects := effects + [Effect(a, result)];
      return Ok(result);
    }

    method ExecuteWithReceipt(a: Authorization, now: int, otherChecks: bool, result: Option<string>, receiptId: string)
      returns (r: Result<Receipt, ExecutionError>)
      modifies this
      ensures State() == WholeCall(old(State()), a, now, otherChecks, result, receiptId)
      ensures a.Id() in old(receipts) ==> State() == old(State()) && r == Ok(old(receipts)[a.Id()])
      ensures effects != old(effects) || nonces != old(nonces) ==>
                && a in old(issued) && otherChecks && a.issuedAt <= now <= a.expiresAt
                && a.nonce !in old(nonces) && AuthorizationId(a.signature, a.nonce) !in old(receipts)
                && effects == old(effects) + [Effect(a, result)] && a.nonce in nonces
      ensures a.Id() !in old(receipts) && r.Ok? ==>
                && r.value == (if effects != old(effects) && result.GetOr("") != ""
                               then Receipt(receiptId, AuthorizationId(a.signature, a.nonce), Submitted, result)
                               else Receipt(receiptId, AuthorizationId(a.signature, a.nonce), Failed, None))
                && receipts == old(receipts)[AuthorizationId(a.signature, a.nonce) := r.value]
      ensures r.Err? <==>
                && AuthorizationId(a.signature, a.nonce) !in old(receipts)
                && exists k :: k in old(receipts) && old(receipts)[k].receiptId == receiptId
      ensures r.Err? ==> receipts == old(receipts)
    {
      ReceiptedCallIs(State(), a, now, otherChecks, result, receiptId);
      if a.Id() in receipts {
        return Ok(receipts[a.Id()]);
      }
      var sent := Execute(a, now, otherChecks, result);
      var receipt := Receipt(receiptId, a.Id(), Failed, None);
      if sent.Ok? && sent.value.GetOr("") != "" {
        receipt := Receipt(receiptId, a.Id(), Submitted, sent.value);
      }
      var recorded := RecordReceipt(Db(issued, nonces, receipts, effects), receipt);
      if recorded.None? {
        return Err(ReceiptAlreadyRecorded);
      }
      receipts := recorded.value.receipts;
      return Ok(receipt);
    }

    /** `confirm_execution_receipt`. The row changes exactly for a passed SUBMITTED
        receipt with a reference, a final state that names no other reference, and
        a known authorization; then its status becomes the state and its reference
        the passed one. A pending confirmation answers nothing, a receipt that is
        not SUBMITTED is handed back, everything else is an error. */
    method ConfirmReceipt(passed: Receipt, state: ConfirmationState, ref: Option<string>)
      returns (r: Result<Option<Receipt>, ConfirmationError>)
      modifies this`receipts
      ensures State() == ApplyConfirm(old(State()), passed, state, ref)
      ensures r == Ok(None) <==> state.Pending?
      ensures r.Err? ==> receipts == old(receipts)
      ensures r.Ok? && r.value.Some? ==>
                if passed.status != Submitted then r.value.value == passed && receipts == old(receipts)
                else
                  && passed.authorizationId in old(receipts)
                  && r.value.value == passed.(status := if state.IsConfirmed? then Confirmed else Failed)
                  && receipts == old(receipts)[passed.authorizationId := old(receipts)[passed.authorizationId].(
                       status := r.value.value.status, transactionRef := passed.transactionRef)]
      ensures r.Err? <==>
                && !state.Pending? && passed.status == Submitted
                && (state.Unknown? || passed.transactionRef.GetOr("") == ""
                    || (ref.GetOr("") != "" && ref != passed.transactionRef)
                    || passed.authorizationId !in old(receipts))
    {
      if state.Pending? {
        return Ok(None);
      }
      if passed.status != Submitted {
        return Ok(Some(passed));
      }
      if state.Unknown? {
        return Err(InvalidState);
      }
      var chosen := if ref.GetOr("") != "" then ref else passed.transactionRef;
      if chosen.GetOr("") == "" {
        return Err(ReferenceMissing);
      }
      if chosen != passed.transactionRef {
        return Err(ReferenceMismatch);
      }
      var updated := passed.(status := if state.IsConfirmed? then Confirmed else Failed);
      if passed.authorizationId !in receipts {
        return Err(ReceiptNotFound);
      }
      var row := receipts[passed.authorizationId];
      receipts := receipts[passed.authorizationId := row.(
        status := updated.status, transactionRef := updated.transactionRef)];
      return Ok(Some(updated));
    }
  }
}
