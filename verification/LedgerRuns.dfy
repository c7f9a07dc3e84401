/** Recording an outcome is two storage calls (core/authority_state.py): one inserts
    it into the event table that snapshots count, one appends it to the ledger that
    validators recount. Both ignore an event id they already hold. Here they
    interleave, and a worker may stop between them. */
module LedgerRuns {
  import opened Common
  import opened Governance
  import opened DynamicAuthority
  import opened AuthorityValidators
  import Traces

  datatype Pc = Idle | Inserted(event: Event)

  datatype World = World(events: seq<Event>, ledger: seq<LedgerRow>, workers: map<nat, Pc>)
  {
    function Pc(i: nat): Pc {
      if i in workers then workers[i] else Idle
    }

    /** The ledger with the events it holds itself. */
    ghost function Ledgered(): Db {
      Db(EventsIn(ledger), ledger, map[], [], [])
    }
  }

  const INITIAL := World([], [], map[])

  datatype Step = Insert(worker: nat, event: Event) | Append(worker: nat) | Abandon(worker: nat)

  function Next(w: World, s: Step): World {
    match s
    case Insert(i, e) =>
      if w.Pc(i) != Idle || !Recordable(e) then w
      else w.(events := InsertEvent(w.events, e), workers := w.workers[i := Inserted(e)])
    case Append(i) =>
      if !w.Pc(i).Inserted? then w
      else w.(ledger := AppendLedger(w.ledger, w.Pc(i).event), workers := w.workers[i := Idle])
    case Abandon(i) => w.(workers := w.workers[i := Idle])
  }

  ghost function Stepper(): (World, Step) -> World {
    (w: World, s: Step) => Next(w, s)
  }

  /** `trace[k]` is the world after `k` steps. */
  ghost predicate IsTrace(run: seq<Step>, trace: seq<World>) {
    Traces.IsTrace(INITIAL, run, trace, Stepper())
  }

  ghost predicate StepTaken(run: seq<Step>, trace: seq<World>, k: nat)
    requires k < |run| && |trace| == |run| + 1
  {
    Traces.StepTaken(run, trace, k, Stepper())
  }

  // -------------------------------------------------------------- the invariant

  ghost predicate IdsDistinct(events: seq<Event>) {
    forall i, j :: 0 <= i < j < |events| ==> EventId(events[i]) != EventId(events[j])
  }

  /** The ledger alone is a sound one, and every row and every event in flight has an
      event of its id in the event table. */
  ghost predicate Inv(w: World) {
    && Coupled(w.Ledgered())
    && IdsDistinct(w.events)
    && (forall k :: 0 <= k < |w.ledger| ==> EventKnown(w.events, w.ledger[k].eventId))
    && (forall i {:trigger w.Pc(i)} :: w.Pc(i).Inserted? ==>
          Recordable(w.Pc(i).event) && EventKnown(w.events, EventId(w.Pc(i).event)))
  }

  lemma KnownStays(events: seq<Event>, e: Event)
    ensures EventKnown(InsertEvent(events, e), EventId(e)) && events <= InsertEvent(events, e)
    ensures forall id :: EventKnown(events, id) ==> EventKnown(InsertEvent(events, e), id)
    ensures IdsDistinct(events) ==> IdsDistinct(InsertEvent(events, e))
  {
    var longer := events + [e];
    assert longer[|events|] == e;
    forall id | EventKnown(events, id) ensures EventKnown(longer, id) {
      var i :| 0 <= i < |events| && EventId(events[i]) == id;
      assert longer[i] == events[i];
    }
  }

  lemma AppendKeepsSound(w: World, e: Event)
    requires Coupled(w.Ledgered()) && Recordable(e)
    ensures Coupled(w.(ledger := AppendLedger(w.ledger, e)).Ledgered())
  {
    var db := w.Ledgered();
    RecordKeepsCoupled(db, e);
    KnownTogether(db, EventId(e));
    assert EventsIn(w.ledger + [NextRow(w.ledger, e)]) == EventsIn(w.ledger) + [e];
    CoupledFrame(RecordEvent(db, e), w.(ledger := AppendLedger(w.ledger, e)).Ledgered());
  }

  lemma StepKeepsInv(w: World, s: Step)
    requires Inv(w)
    ensures Inv(Next(w, s))
  {
    var v := Next(w, s);
    match s {
      case Insert(i, e) =>
        KnownStays(w.events, e);
      case Append(i) =>
        if w.Pc(i).Inserted? {
          AppendKeepsSound(w, w.Pc(i).event);
        }
      case Abandon(i) =>
    }
    forall j | v.Pc(j).Inserted? ensures Recordable(v.Pc(j).event) && EventKnown(v.events, EventId(v.Pc(j).event)) {
      assert w.Pc(j).Inserted? ==> EventKnown(w.events, EventId(w.Pc(j).event));
    }
  }

  /** However the two calls interleave, every scope's ledger is a valid chain of
      distinct outcomes, and each of them has its id in the event table. */
  lemma {:induction false} RunKeepsInv(run: seq<Step>, trace: seq<World>, k: nat)
    requires IsTrace(run, trace) && k <= |run|
    ensures Inv(trace[k])
  {
    if k == 0 {
      assert forall i :: INITIAL.Pc(i) == Idle;
    } else {
      RunKeepsInv(run, trace, k - 1);
      assert StepTaken(run, trace, k - 1);
      StepKeepsInv(trace[k - 1], run[k - 1]);
    }
  }

  // ------------------------------------------------- when the two tables agree

  ghost predicate TablesAgree(w: World) {
    multiset(w.events) == multiset(EventsIn(w.ledger))
  }

  ghost predicate RowStored(w: World, k: nat)
    requires k < |w.ledger|
  {
    w.ledger[k].event in w.events
  }

  ghost predicate AllStored(w: World) {
    forall k {:trigger RowStored(w, k)} :: 0 <= k < |w.ledger| ==> RowStored(w, k)
  }

  /** No event is missing from the ledger. */
  ghost predicate AllLedgered(w: World) {
    forall e :: e in w.events ==> LedgerKnown(w.ledger, EventId(e))
  }

  lemma RowIds(w: World)
    requires Inv(w)
    ensures forall k :: 0 <= k < |w.ledger| ==> w.ledger[k].eventId == EventId(w.ledger[k].event)
    ensures Distinct(EventsIn(w.ledger))
  {
    var db := w.Ledgered();
    forall k | 0 <= k < |w.ledger| ensures w.ledger[k].eventId == EventId(w.ledger[k].event) {
      assert RowCoupled(db, k);
    }
    forall i, j | 0 <= i < j < |w.ledger| ensures EventsIn(w.ledger)[i] != EventsIn(w.ledger)[j] {
      assert RowCoupled(db, j) && w.ledger[..j][i] == w.ledger[i];
    }
  }

  /** The tables hold the same outcomes exactly when every row holds the stored event
      of its id and no event is missing. */
  lemma AgreeExactly(w: World)
    requires Inv(w)
    ensures TablesAgree(w) <==> AllStored(w) && AllLedgered(w)
  {
    if TablesAgree(w) {
      AgreedIsStored(w);
    }
    if AllStored(w) && AllLedgered(w) {
      StoredAgrees(w);
    }
  }

  lemma AgreedIsStored(w: World)
    requires Inv(w) && TablesAgree(w)
    ensures AllStored(w) && AllLedgered(w)
  {
    var held := EventsIn(w.ledger);
    RowIds(w);
    forall k | 0 <= k < |w.ledger| ensures RowStored(w, k) {
      assert held[k] in multiset(w.events);
    }
    forall e | e in w.events ensures LedgerKnown(w.ledger, EventId(e)) {
      assert e in multiset(held);
      var k :| 0 <= k < |held| && held[k] == e;
      assert w.ledger[k].eventId == EventId(e);
    }
  }

  lemma StoredAgrees(w: World)
    requires Inv(w) && AllStored(w) && AllLedgered(w)
    ensures TablesAgree(w)
  {
    var held := EventsIn(w.ledger);
    RowIds(w);
    forall e | e in w.events ensures e in held {
      StoredIsHeld(w, e);
    }
    forall e | e in held ensures e in w.events {
      var k :| 0 <= k < |held| && held[k] == e;
      assert RowStored(w, k);
    }
    SameElements(w.events, held);
  }

  lemma StoredIsHeld(w: World, e: Event)
    requires Inv(w) && AllStored(w) && e in w.events && LedgerKnown(w.ledger, EventId(e))
    ensures e in EventsIn(w.ledger)
  {
    RowIds(w);
    var k :| 0 <= k < |w.ledger| && w.ledger[k].eventId == EventId(e);
    assert RowStored(w, k) && EventsIn(w.ledger)[k] == w.ledger[k].event;
  }

  lemma SameElements(a: seq<Event>, b: seq<Event>)
    requires Distinct(a) && Distinct(b) && forall x :: x in a <==> x in b
    ensures multiset(a) == multiset(b)
  {
    forall x ensures multiset(a)[x] == multiset(b)[x] {
      DistinctCounts(a, x);
      DistinctCounts(b, x);
      assert multiset(a)[x] > 0 <==> x in a;
      assert multiset(b)[x] > 0 <==> x in b;
    }
  }

  /** Step `k` appends the ledger row of this event id. */
  ghost predicate Appends(run: seq<Step>, trace: seq<World>, k: nat, id: string)
    requires k < |run| && |trace| == |run| + 1
  {
    && run[k].Append? && trace[k].Pc(run[k].worker).Inserted?
    && EventId(trace[k].Pc(run[k].worker).event) == id && !LedgerKnown(trace[k].ledger, id)
  }

  /** The row it appends is not the event stored under its id: an earlier call
      inserted one that differs, in its time or its metadata. */
  ghost predicate AppendsOther(run: seq<Step>, trace: seq<World>, k: nat)
    requires k < |run| && |trace| == |run| + 1
  {
    && run[k].Append? && trace[k].Pc(run[k].worker).Inserted?
    && Appends(run, trace, k, EventId(trace[k].Pc(run[k].worker).event))
    && trace[k].Pc(run[k].worker).event !in trace[k].events
  }

  /** An event that is not stored under its known id never will be. */
  lemma StoredLater(w: World, s: Step, e: Event)
    requires EventKnown(w.events, EventId(e))
    ensures e in Next(w, s).events <==> e in w.events
  {
    if s.Insert? {
      KnownStays(w.events, s.event);
    }
  }

  lemma StepStores(run: seq<Step>, trace: seq<World>, k: nat)
    requires IsTrace(run, trace) && k < |run|
    ensures AllStored(trace[k + 1]) <==> AllStored(trace[k]) && !AppendsOther(run, trace, k)
  {
    var w, v := trace[k], trace[k + 1];
    RunKeepsInv(run, trace, k);
    assert StepTaken(run, trace, k);
    RowIds(w);
    forall m | 0 <= m < |w.ledger| ensures v.ledger[m] == w.ledger[m] && (RowStored(v, m) <==> RowStored(w, m)) {
      StoredLater(w, run[k], w.ledger[m].event);
    }
    if run[k].Append? && w.Pc(run[k].worker).Inserted? {
      NewRowStored(w, run[k].worker);
    }
  }

  lemma NewRowStored(w: World, i: nat)
    requires Inv(w) && w.Pc(i).Inserted?
    ensures var e, v := w.Pc(i).event, Next(w, Append(i));
            if LedgerKnown(w.ledger, EventId(e)) then v.ledger == w.ledger
            else |v.ledger| == |w.ledger| + 1 && (RowStored(v, |w.ledger|) <==> e in w.events)
  {
  }

  lemma {:induction false} StoredExactly(run: seq<Step>, trace: seq<World>, n: nat)
    requires IsTrace(run, trace) && n <= |run|
    ensures AllStored(trace[n]) <==>
              forall k {:trigger AppendsOther(run, trace, k)} :: 0 <= k < n ==> !AppendsOther(run, trace, k)
  {
    if n > 0 {
      StoredExactly(run, trace, n - 1);
      StepStores(run, trace, n - 1);
    }
  }

  /** For every run: event table and ledger hold the same outcomes exactly when no
      row was appended for an event other than the stored one, and no event is
      missing from the ledger. */
  lemma TablesAgreeExactly(run: seq<Step>, trace: seq<World>, n: nat)
    requires IsTrace(run, trace) && n <= |run|
    ensures TablesAgree(trace[n]) <==>
              && AllLedgered(trace[n])
              && forall k {:trigger AppendsOther(run, trace, k)} :: 0 <= k < n ==> !AppendsOther(run, trace, k)
  {
    RunKeepsInv(run, trace, n);
    AgreeExactly(trace[n]);
    StoredExactly(run, trace, n);
  }

  /** An id is in the ledger exactly when some call got as far as appending it: an
      event is missing while its worker stands between the two calls, and for good if
      it stopped there and nobody recorded the evidence again. */
  lemma {:induction false} LedgeredExactly(run: seq<Step>, trace: seq<World>, n: nat, id: string)
    requires IsTrace(run, trace) && n <= |run|
    ensures LedgerKnown(trace[n].ledger, id) <==>
              exists k {:trigger Appends(run, trace, k, id)} :: 0 <= k < n && Appends(run, trace, k, id)
  {
    if n == 0 {
      assert trace[0].ledger == [];
    } else {
      LedgeredExactly(run, trace, n - 1, id);
      assert StepTaken(run, trace, n - 1);
      LedgerStep(trace[n - 1], run[n - 1], id);
      assert Appends(run, trace, n - 1, id) ==> LedgerKnown(trace[n].ledger, id);
      if LedgerKnown(trace[n].ledger, id) && !LedgerKnown(trace[n - 1].ledger, id) {
        assert Appends(run, trace, n - 1, id);
      }
    }
  }

  lemma LedgerStep(w: World, s: Step, id: string)
    ensures LedgerKnown(Next(w, s).ledger, id) <==>
              || LedgerKnown(w.ledger, id)
              || (s.Append? && w.Pc(s.worker).Inserted? && EventId(w.Pc(s.worker).event) == id)
  {
    if s.Append? && w.Pc(s.worker).Inserted? {
      StillKnown(w.ledger, NextRow(w.ledger, w.Pc(s.worker).event));
      KnownOnlyNew(w.ledger, NextRow(w.ledger, w.Pc(s.worker).event), id);
    }
  }

  lemma KnownOnlyNew(ledger: seq<LedgerRow>, row: LedgerRow, id: string)
    ensures LedgerKnown(ledger + [row], id) <==> LedgerKnown(ledger, id) || row.eventId == id
  {
    StillKnown(ledger, row);
    if LedgerKnown(ledger + [row], id) {
      var k :| 0 <= k < |ledger| + 1 && (ledger + [row])[k].eventId == id;
      assert k < |ledger| ==> ledger[k].eventId == id;
    }
  }

  // ------------------------------------------------------- what agreement is worth

  predicate Counts(e: Event, s: Scope, from: real, upTo: Option<real>) {
    e.scope == s && from <= e.occurredAt && (upTo.None? || e.occurredAt <= upTo.value)
  }

  /** The counters of a scope, event by event. */
  function Tally(events: seq<Event>, s: Scope, from: real, upTo: Option<real>): Counters {
    if events == [] then Counters(0, 0, 0)
    else
      var c := Tally(events[..|events| - 1], s, from, upTo);
      if Counts(Last(events), s, from, upTo) then Count(c, Last(events)) else c
  }

  lemma {:induction false} TallyCounts(events: seq<Event>, s: Scope, from: real, upTo: Option<real>)
    ensures CountFrom(EventsOf(events, s), from, upTo) == Tally(events, s, from, upTo)
  {
    if events != [] {
      TallyCounts(events[..|events| - 1], s, from, upTo);
      var mine, e := EventsOf(events[..|events| - 1], s), Last(events);
      assert (mine + [e])[..|mine|] == mine && mine + [] == mine;
    }
  }

  lemma TallySnoc(a: seq<Event>, e: Event, s: Scope, from: real, upTo: Option<real>)
    ensures var c := Tally(a, s, from, upTo);
            Tally(a + [e], s, from, upTo) == if Counts(e, s, from, upTo) then Count(c, e) else c
  {
    assert (a + [e])[..|a|] == a;
  }

  /** Where an event stands does not matter to a count. */
  lemma {:induction false} TallySplit(a: seq<Event>, b: seq<Event>, e: Event, s: Scope, from: real, upTo: Option<real>)
    ensures Tally(a + [e] + b, s, from, upTo) == Tally(a + b + [e], s, from, upTo)
    decreases |b|
  {
    if b == [] {
      assert a + [e] + b == a + b + [e];
    } else {
      var front, d := b[..|b| - 1], Last(b);
      TallySplit(a, front, e, s, from, upTo);
      assert a + [e] + b == (a + [e] + front) + [d];
      TallySnoc(a + [e] + front, d, s, from, upTo);
      TallySnoc(a + front, e, s, from, upTo);
      assert a + b == (a + front) + [d];
      TallySnoc(a + front, d, s, from, upTo);
      TallySnoc(a + b, e, s, from, upTo);
    }
  }

  lemma {:induction false} TallyPermutes(a: seq<Event>, b: seq<Event>, s: Scope, from: real, upTo: Option<real>)
    requires multiset(a) == multiset(b)
    ensures Tally(a, s, from, upTo) == Tally(b, s, from, upTo)
  {
    if a == [] {
      assert |multiset(b)| == |b|;
    } else {
      var i := LastPlace(a, b);
      var front, rest := a[..|a| - 1], b[..i] + b[i + 1..];
      TallyPermutes(front, rest, s, from, upTo);
      TallySplit(b[..i], b[i + 1..], b[i], s, from, upTo);
      TallySnoc(rest, b[i], s, from, upTo);
    }
  }

  /** When the tables agree, a validator that recounts the ledger up to a time counts
      what the event table holds up to it, for every scope. */
  lemma AgreedRecount(w: World, s: Scope, from: real, now: real)
    requires Inv(w) && TablesAgree(w)
    ensures CountFrom(EventsIn(RowsOf(w.ledger, s)), from, Some(now))
         == CountFrom(EventsOf(w.events, s), from, Some(now))
  {
    ScopeRowsSound(w.Ledgered(), s);
    TallyCounts(w.events, s, from, Some(now));
    TallyCounts(EventsIn(w.ledger), s, from, Some(now));
    TallyPermutes(w.events, EventsIn(w.ledger), s, from, Some(now));
  }

  /** Exactly when the historical validator accepts a snapshot that counted the event
      table of one world and read the ledger's head in another, although the tables
      are written apart: as ever, with the live count equal to the recount of the
      rows the head commits to. */
  lemma HistoricalRecountsLedger(bounded: Db, counted: Db, recalled: Db, headed: World, later: World,
                                 p: AuthorityPolicy, s: Scope, now: real)
    requires Inv(headed) && Inv(later) && headed.ledger <= later.ledger
    ensures var snapshot := SplitSnapshot(bounded, counted, recalled, headed.Ledgered(), p, s, now);
            var start, rows := snapshot.historyStart, RowsOf(later.ledger, s);
            HistoricalVerdictOf(snapshot, rows, p, snapshot.head) == HistoricalOk <==>
              && start == now - p.Window()
              && !Stuck(bounded, recalled, s)
              && !AnyAtOrBefore(LaterRows(headed.Ledgered(), later.Ledgered(), s), now)
              && CountFrom(EventsOf(counted.events, s), start, None)
                 == CountFrom(EventsIn(RowsOf(headed.ledger, s)), start, Some(now))
  {
    SplitHistoricalExactly(bounded, counted, recalled, headed.Ledgered(), later.Ledgered(), p, s, now);
    ScopeRowsSound(headed.Ledgered(), s);
  }

  // -------------------------------------------------------- a retry that disagrees

  const SCOPE := Scope("agent", "capability")

  function Confirmed(at: real): Event {
    Event(SCOPE, None, ExecutionConfirmed, None, "claim", map[], at)
  }

  /** Worker 0 stops between its calls; worker 1 records the same evidence later. */
  const RETRY: seq<Step> :=
    [] + [Insert(0, Confirmed(1.0))] + [Abandon(0)] + [Insert(1, Confirmed(9.0))] + [Append(1)]

  ghost function Reached(steps: seq<Step>): World {
    Traces.Outcome(INITIAL, steps, Stepper())
  }

  lemma Then(steps: seq<Step>, step: Step)
    ensures Reached(steps + [step]) == Next(Reached(steps), step)
  {
    Traces.OutcomeOfBoth(INITIAL, steps, [step], Stepper());
    Traces.OutcomeOfOne(Reached(steps), step, Stepper());
  }

  lemma SameEvidence()
    ensures InsertEvent([], Confirmed(1.0)) == [Confirmed(1.0)]
    ensures InsertEvent([Confirmed(1.0)], Confirmed(9.0)) == [Confirmed(1.0)]
    ensures EventsIn(AppendLedger([], Confirmed(9.0))) == [Confirmed(9.0)]
    ensures forall at :: Recordable(Confirmed(at))
  {
    assert EventId([Confirmed(1.0)][0]) == EventId(Confirmed(9.0));
    assert EventKnown([Confirmed(1.0)], EventId(Confirmed(9.0)));
    assert [] + [Confirmed(1.0)] == [Confirmed(1.0)];
  }

  lemma RetryStores()
    ensures Reached(RETRY).events == [Confirmed(1.0)] && EventsIn(Reached(RETRY).ledger) == [Confirmed(9.0)]
  {
    var s1 := [] + [Insert(0, Confirmed(1.0))];
    SameEvidence();
    Then([], Insert(0, Confirmed(1.0)));
    Then(s1, Abandon(0));
    Then(s1 + [Abandon(0)], Insert(1, Confirmed(9.0)));
    Then(s1 + [Abandon(0)] + [Insert(1, Confirmed(9.0))], Append(1));
  }

  lemma OneCounted(at: real, from: real, upTo: Option<real>)
    ensures CountFrom(EventsOf([Confirmed(at)], SCOPE), from, upTo)
              == if from <= at && (upTo.None? || at <= upTo.value) then Counters(1, 0, 0) else Counters(0, 0, 0)
  {
    TallyCounts([Confirmed(at)], SCOPE, from, upTo);
    TallySnoc([], Confirmed(at), SCOPE, from, upTo);
    assert [] + [Confirmed(at)] == [Confirmed(at)];
  }

  /** The event table keeps the first time and the ledger the second: at a time in
      between the service counts a success that no recount of the ledger finds. */
  lemma RetryDisagrees()
    ensures Reached(RETRY).events == [Confirmed(1.0)] && EventsIn(Reached(RETRY).ledger) == [Confirmed(9.0)]
    ensures CountFrom(EventsOf(Reached(RETRY).events, SCOPE), 0.0, None) == Counters(1, 0, 0)
    ensures CountFrom(EventsOf(EventsIn(Reached(RETRY).ledger), SCOPE), 0.0, Some(5.0)) == Counters(0, 0, 0)
  {
    RetryStores();
    OneCounted(1.0, 0.0, None);
    OneCounted(9.0, 0.0, Some(5.0));
  }
}
