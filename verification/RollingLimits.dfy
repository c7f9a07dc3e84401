/** Payment and action decisions with their rolling spend and rate limits:
    `GuardrailEngine.evaluate` and `evaluate_action` (core/engine.py), the rules
    (core/rules.py) and the audit queries (core/storage.py). */
module RollingLimits {
  import opened Common
  import opened Models

  datatype Decision = Allow | Warn | Block

  datatype RuleMatch = RuleMatch(ruleId: string, blocks: bool)

  datatype Payment = Payment(intentId: string, agentId: string, payee: string, asset: string, network: string,
                             amount: real)

  /** What a generic action declares besides the action intent itself. */
  datatype Declared = Declared(
    inputProvenance: map<string, Value>,
    executionGraph: Option<map<string, Value>>,
    destination: Option<string>,
    invocationDestination: Option<string>)

  datatype ScopePolicy = ScopePolicy(
    actionTypes: Option<seq<string>>,
    purposes: Option<seq<string>>,
    context: map<string, Value>,
    inputProvenance: map<string, Value>,
    executionGraph: map<string, Value>,
    destinations: Option<seq<string>>,
    blockedDestinations: seq<string>,
    targets: Option<seq<string>>)

  datatype SpendPolicy = SpendPolicy(
    scope: ScopePolicy,
    blockedPayees: seq<string>,
    allowedPayees: Option<seq<string>>,
    allowedNetworks: Option<seq<string>>,
    allowedAssets: Option<seq<string>>,
    perTxCap: map<string, real>,
    newPayeeCap: map<string, real>,
    dailyCap: map<string, real>,
    confirmationOver: map<string, real>,
    rateLimit: int)

  /** `kind` tells which of the two entry points wrote the row. */
  datatype Kind = PaymentRow | ActionRow

  datatype Row = Row(kind: Kind, intentId: string, agentId: string, payee: string, asset: string, amount: real,
                     decision: Decision, createdAt: real)

  /** The clock is read once for each query and once for the record. */
  datatype Clock = Clock(spendAt: real, callsAt: real, recordedAt: real)

  predicate Forward(c: Clock) {
    c.spendAt <= c.callsAt <= c.recordedAt
  }

  const DAY := 86400.0
  const MINUTE := 60.0

  // -------------------------------------------------------------------- queries

  predicate CountsAsSpend(r: Row, agent: string, asset: string) {
    r.agentId == agent && r.asset == asset && r.decision != Block
  }

  function SpentSince(rows: seq<Row>, agent: string, asset: string, since: real): real {
    if rows == [] then 0.0
    else SpentSince(rows[..|rows| - 1], agent, asset, since)
         + if CountsAsSpend(Last(rows), agent, asset) && Last(rows).createdAt >= since then Last(rows).amount else 0.0
  }

  function CallsSince(rows: seq<Row>, agent: string, since: real): nat {
    if rows == [] then 0
    else CallsSince(rows[..|rows| - 1], agent, since)
         + if Last(rows).agentId == agent && Last(rows).createdAt >= since then 1 else 0
  }

  predicate PayeeSeen(rows: seq<Row>, agent: string, payee: string, exclude: string) {
    exists i :: 0 <= i < |rows| && rows[i].agentId == agent && rows[i].payee == payee && rows[i].intentId != exclude
                && rows[i].decision != Block
  }

  // ---------------------------------------------------------------------- rules

  predicate ListedLower(name: string, listed: seq<string>) {
    exists x :: x in listed && Lower(x) == Lower(name)
  }

  predicate ListedUpper(name: string, listed: seq<string>) {
    exists x :: x in listed && Upper(x) == Upper(name)
  }

  function When(condition: bool, ruleId: string, blocks: bool): seq<RuleMatch> {
    if condition then [RuleMatch(ruleId, blocks)] else []
  }

  predicate Over(caps: map<string, real>, asset: string, amount: real) {
    Upper(asset) in caps && Exceeds(amount, caps[Upper(asset)])
  }

  function PerTxMatch(p: Payment, policy: SpendPolicy): seq<RuleMatch> {
    if !IsValidAmount(p.amount) then [RuleMatch("invalid_amount", true)]
    else When(Over(policy.perTxCap, p.asset, p.amount), "per_tx_cap_exceeded", true)
  }

  predicate OverDaily(p: Payment, policy: SpendPolicy, spent: real) {
    Upper(p.asset) in policy.dailyCap
    && (!IsValidAmount(p.amount) || !IsValidAmount(spent) || spent + p.amount > policy.dailyCap[Upper(p.asset)])
  }

  /** Zero disables the limit. */
  predicate OverRate(policy: SpendPolicy, calls: nat) {
    policy.rateLimit != 0 && calls >= policy.rateLimit
  }

  function ScopeMatches(p: Payment, policy: SpendPolicy): seq<RuleMatch> {
    ListMatches(p, policy) + PerTxMatch(p, policy)
  }

  function ListMatches(p: Payment, policy: SpendPolicy): seq<RuleMatch> {
    When(ListedLower(p.payee, policy.blockedPayees), "blocked_payee", true)
    + When(policy.allowedPayees.Some? && !ListedLower(p.payee, policy.allowedPayees.value), "payee_not_allowlisted",
           true)
    + When(policy.allowedNetworks.Some? && !ListedLower(p.network, policy.allowedNetworks.value),
           "network_not_allowed", true)
    + When(policy.allowedAssets.Some? && !ListedUpper(p.asset, policy.allowedAssets.value), "asset_not_allowed", true)
  }

  function LimitMatches(rows: seq<Row>, p: Payment, policy: SpendPolicy, c: Clock): seq<RuleMatch> {
    When(!PayeeSeen(rows, p.agentId, p.payee, p.intentId) && Over(policy.newPayeeCap, p.asset, p.amount),
         "new_payee_cap_exceeded", false)
    + When(OverDaily(p, policy, SpentSince(rows, p.agentId, p.asset, c.spendAt - DAY)), "daily_cap_exceeded", false)
    + When(Over(policy.confirmationOver, p.asset, p.amount), "confirmation_required", false)
    + When(OverRate(policy, CallsSince(rows, p.agentId, c.callsAt - MINUTE)), "rate_limit_exceeded", true)
  }

  function PaymentMatches(rows: seq<Row>, p: Payment, policy: SpendPolicy, c: Clock): seq<RuleMatch> {
    ScopeMatches(p, policy) + LimitMatches(rows, p, policy, c)
  }

  /** The amount rule looks at the exact amount; the record keeps the plain one. */
  function AmountMatch(a: ActionIntent, policy: SpendPolicy): seq<RuleMatch> {
    if ExactAmountOf(a).None? || a.asset.None? then []
    else if !IsValidAmount(ExactAmountOf(a).value) then [RuleMatch("invalid_amount", true)]
    else When(Over(policy.perTxCap, a.asset.value, ExactAmountOf(a).value), "per_tx_cap_exceeded", true)
  }

  predicate PurposeStripped(purpose: string, listed: seq<string>) {
    exists p :: p in listed && Lower(Strip(p)) == Lower(Strip(purpose))
  }

  function ValueAt(values: map<string, Value>, key: string): Value {
    if key in values then values[key] else Null
  }

  predicate Outside(constraints: map<string, Value>, values: map<string, Value>) {
    exists key :: key in constraints && !Admits(constraints[key], ValueAt(values, key))
  }

  predicate OffGraph(graph: map<string, Value>, values: map<string, Value>) {
    exists key :: key in graph && ValueAt(values, key) != graph[key]
  }

  /** The declared destination, else the tool invocation's; blank ones do not count. */
  function Destination(d: Declared): Option<string> {
    if Strip(d.destination.GetOr("")) != "" then Some(Strip(d.destination.value))
    else if Strip(d.invocationDestination.GetOr("")) != "" then Some(Strip(d.invocationDestination.value))
    else None
  }

  function GraphMatch(d: Declared, graph: map<string, Value>): seq<RuleMatch> {
    if graph == map[] then []
    else if d.executionGraph.None? then [RuleMatch("execution_graph_missing", true)]
    else When(OffGraph(graph, d.executionGraph.value), "execution_graph_not_allowed", true)
  }

  function DestinationMatch(d: Declared, scope: ScopePolicy): seq<RuleMatch> {
    if scope.destinations.None? && scope.blockedDestinations == [] then []
    else if Destination(d).None? then [RuleMatch("destination_missing", true)]
    else if ListedLower(Destination(d).value, scope.blockedDestinations) then [RuleMatch("destination_blocked", true)]
    else When(scope.destinations.Some? && !ListedLower(Destination(d).value, scope.destinations.value),
              "destination_not_allowed", true)
  }

  function TargetMatch(a: ActionIntent, policy: SpendPolicy): seq<RuleMatch> {
    if ListedLower(a.target, policy.blockedPayees) then [RuleMatch("target_blocked", true)]
    else When(policy.scope.targets.Some? && !ListedLower(a.target, policy.scope.targets.value), "target_not_allowed",
              true)
  }

  /** The nine stateless scope rules of an action, in order: what it declares, then
      where it goes. */
  function ActionScopeMatches(a: ActionIntent, d: Declared, policy: SpendPolicy): seq<RuleMatch> {
    DeclaredMatches(a, d, policy.scope) + PlaceMatches(a, d, policy)
  }

  function DeclaredMatches(a: ActionIntent, d: Declared, s: ScopePolicy): seq<RuleMatch> {
    When(s.actionTypes.Some? && !ListedLower(a.actionType, s.actionTypes.value), "action_type_not_allowed", true)
    + When(s.purposes.Some? && !PurposeStripped(a.purpose, s.purposes.value), "purpose_not_allowed", true)
    + When(Outside(s.context, a.declaredContext), "context_not_allowed", true)
    + When(Outside(s.inputProvenance, d.inputProvenance), "input_provenance_not_allowed", true)
    + GraphMatch(d, s.executionGraph)
  }

  function PlaceMatches(a: ActionIntent, d: Declared, policy: SpendPolicy): seq<RuleMatch> {
    DestinationMatch(d, policy.scope)
    + TargetMatch(a, policy)
    + When(a.network.Some? && policy.allowedNetworks.Some?
           && !ListedLower(a.network.value, policy.allowedNetworks.value),
           "network_not_allowed", true)
    + When(a.asset.Some? && policy.allowedAssets.Some? && !ListedUpper(a.asset.value, policy.allowedAssets.value),
           "asset_not_allowed", true)
  }

  function ActionMatches(rows: seq<Row>, a: ActionIntent, d: Declared, policy: SpendPolicy, c: Clock): seq<RuleMatch> {
    ActionScopeMatches(a, d, policy)
    + (AmountMatch(a, policy) + ActionRateMatch(rows, a, policy, c))
  }

  function ActionRateMatch(rows: seq<Row>, a: ActionIntent, policy: SpendPolicy, c: Clock): seq<RuleMatch> {
    When(OverRate(policy, CallsSince(rows, a.agentId, c.callsAt - MINUTE)), "rate_limit_exceeded", true)
  }

  /** Any blocking match blocks, any other match warns. */
  function Final(matches: seq<RuleMatch>): Decision {
    if exists m :: m in matches && m.blocks then Block else if matches != [] then Warn else Allow
  }

  function PaymentRecord(p: Payment, d: Decision, at: real): Row {
    Row(PaymentRow, p.intentId, p.agentId, p.payee, p.asset, p.amount, d, at)
  }

  function ActionRecord(a: ActionIntent, d: Decision, at: real): Row {
    Row(ActionRow, a.intentId, a.agentId, a.target, a.asset.GetOr(""), a.amount.GetOr(0.0), d, at)
  }

  datatype Op =
    | Pay(payment: Payment, clock: Clock)
    | Act(action: ActionIntent, declared: Declared, clock: Clock)

  /** The row one call appends. */
  function RowOf(rows: seq<Row>, op: Op, policy: SpendPolicy): Row {
    match op
    case Pay(p, c) => PaymentRecord(p, Final(PaymentMatches(rows, p, policy, c)), c.recordedAt)
    case Act(a, d, c) => ActionRecord(a, Final(ActionMatches(rows, a, d, policy, c)), c.recordedAt)
  }

  function Exec(run: seq<Op>, policy: SpendPolicy): seq<Row> {
    if run == [] then []
    else
      var rows := Exec(run[..|run| - 1], policy);
      rows + [RowOf(rows, Last(run), policy)]
  }

  // --------------------------------------------------------------- window totals

  predicate InWindow(r: Row, lo: real, hi: real) {
    lo <= r.createdAt <= hi
  }

  function AllowedIn(rows: seq<Row>, agent: string, asset: string, lo: real, hi: real): real {
    if rows == [] then 0.0
    else
      var r := Last(rows);
      AllowedIn(rows[..|rows| - 1], agent, asset, lo, hi)
      + if r.kind == PaymentRow && r.decision == Allow && r.agentId == agent && r.asset == asset && InWindow(r, lo, hi)
        then r.amount else 0.0
  }

  function PassedIn(rows: seq<Row>, agent: string, lo: real, hi: real): nat {
    if rows == [] then 0
    else
      var r := Last(rows);
      PassedIn(rows[..|rows| - 1], agent, lo, hi)
      + if r.agentId == agent && r.decision != Block && InWindow(r, lo, hi) then 1 else 0
  }

  /** How far negative recorded amounts pull the spend down. */
  function Relief(rows: seq<Row>, agent: string, asset: string): real {
    if rows == [] then 0.0
    else
      var r := Last(rows);
      Relief(rows[..|rows| - 1], agent, asset)
      + if CountsAsSpend(r, agent, asset) && r.amount < 0.0 then -r.amount else 0.0
  }

  // ---------------------------------------------------------------- the theorems

  /** What the queries see of one more row: the spend grows by the amount of a recent
      ALLOW or WARN of the agent in exactly this asset, the calls by one for any recent
      decision of the agent. */
  lemma QueriesSnoc(rows: seq<Row>, r: Row, agent: string, asset: string, since: real)
    ensures SpentSince([], agent, asset, since) == 0.0 && CallsSince([], agent, since) == 0
    ensures SpentSince(rows + [r], agent, asset, since) == SpentSince(rows, agent, asset, since)
              + if r.agentId == agent && r.asset == asset && (r.decision == Allow || r.decision == Warn)
                   && since <= r.createdAt then r.amount else 0.0
    ensures CallsSince(rows + [r], agent, since) == CallsSince(rows, agent, since)
              + if r.agentId == agent && since <= r.createdAt then 1 else 0
  {
    assert (rows + [r])[..|rows|] == rows;
  }

  /** The row a payment leaves: what was paid to whom, and the decision. */
  lemma PaymentRecorded(rows: seq<Row>, p: Payment, c: Clock, policy: SpendPolicy)
    ensures RowOf(rows, Pay(p, c), policy) == Row(PaymentRow, p.intentId, p.agentId, p.payee, p.asset, p.amount,
              if Refused(rows, p, policy, c) then Block else if Questioned(rows, p, policy, c) then Warn else Allow,
              c.recordedAt)
  {
    PaymentDecisionExactly(rows, p, policy, c);
  }

  /** The row an action leaves: the plain amount, zero when there is none, under the
      target in the payee's place. */
  lemma ActionRecorded(rows: seq<Row>, a: ActionIntent, d: Declared, c: Clock, policy: SpendPolicy)
    ensures RowOf(rows, Act(a, d, c), policy) == Row(ActionRow, a.intentId, a.agentId, a.target,
              if a.asset.Some? then a.asset.value else "", if a.amount.Some? then a.amount.value else 0.0,
              if OutOfScope(a, d, policy) || AmountRefused(a, policy)
                 || (policy.rateLimit != 0 && CallsSince(rows, a.agentId, c.callsAt - 60.0) >= policy.rateLimit)
              then Block else Allow,
              c.recordedAt)
  {
    ActionDecisionExactly(rows, a, d, policy, c);
  }

  /** A payment is allowed only under its daily cap, and is not blocked only with a
      valid amount and below the rate limit. */
  lemma PaymentPassesOnlyIf(rows: seq<Row>, p: Payment, policy: SpendPolicy, c: Clock)
    ensures var d := Final(PaymentMatches(rows, p, policy, c));
            && (d == Allow ==> !OverDaily(p, policy, SpentSince(rows, p.agentId, p.asset, c.spendAt - 86400.0)))
            && (d != Block ==> IsValidAmount(p.amount))
            && (d != Block ==> !OverRate(policy, CallsSince(rows, p.agentId, c.callsAt - 60.0)))
  {
    var scope, limits := ScopeMatches(p, policy), LimitMatches(rows, p, policy, c);
    if OverDaily(p, policy, SpentSince(rows, p.agentId, p.asset, c.spendAt - 86400.0)) {
      assert RuleMatch("daily_cap_exceeded", false) in limits;
    }
    if !IsValidAmount(p.amount) {
      assert RuleMatch("invalid_amount", true) in scope;
    }
    if OverRate(policy, CallsSince(rows, p.agentId, c.callsAt - 60.0)) {
      assert RuleMatch("rate_limit_exceeded", true) in limits;
    }
  }

  /** A blocked payee, or a payee, network or asset outside a list that is given; names
      are compared up to case. */
  predicate Unlisted(p: Payment, policy: SpendPolicy) {
    || (exists x :: x in policy.blockedPayees && Lower(x) == Lower(p.payee))
    || (policy.allowedPayees.Some? && forall x :: x in policy.allowedPayees.value ==> Lower(x) != Lower(p.payee))
    || (policy.allowedNetworks.Some? && forall x :: x in policy.allowedNetworks.value ==> Lower(x) != Lower(p.network))
    || (policy.allowedAssets.Some? && forall x :: x in policy.allowedAssets.value ==> Upper(x) != Upper(p.asset))
  }

  /** Everything that blocks a payment. */
  predicate Refused(rows: seq<Row>, p: Payment, policy: SpendPolicy, c: Clock) {
    || Unlisted(p, policy)
    || p.amount < 0.0
    || (Upper(p.asset) in policy.perTxCap && p.amount > policy.perTxCap[Upper(p.asset)])
    || (policy.rateLimit != 0 && CallsSince(rows, p.agentId, c.callsAt - 60.0) >= policy.rateLimit)
  }

  /** Everything that asks for a confirmation of a valid amount: too much for a payee
      without an earlier decision of another payment that was not BLOCK, a day's spend,
      this payment included, over the daily cap, and an amount over the threshold. */
  predicate Questioned(rows: seq<Row>, p: Payment, policy: SpendPolicy, c: Clock) {
    var asset, spent := Upper(p.asset), SpentSince(rows, p.agentId, p.asset, c.spendAt - 86400.0);
    || (asset in policy.newPayeeCap && p.amount > policy.newPayeeCap[asset]
        && forall r :: r in rows && r.agentId == p.agentId && r.payee == p.payee ==>
             r.intentId == p.intentId || r.decision == Block)
    || (asset in policy.dailyCap && (spent < 0.0 || spent + p.amount > policy.dailyCap[asset]))
    || (asset in policy.confirmationOver && p.amount > policy.confirmationOver[asset])
  }

  /** The decision on a payment: blocked exactly if a hard rule is broken, and
      otherwise allowed exactly if nothing asks for a confirmation. */
  lemma PaymentDecisionExactly(rows: seq<Row>, p: Payment, policy: SpendPolicy, c: Clock)
    ensures Final(PaymentMatches(rows, p, policy, c))
         == if Refused(rows, p, policy, c) then Block else if Questioned(rows, p, policy, c) then Warn else Allow
  {
    var scope, limits := ScopeMatches(p, policy), LimitMatches(rows, p, policy, c);
    ScopeBlocks(p, policy);
    LimitsBlockOrWarn(rows, p, policy, c);
    FinalOfParts(scope, limits);
  }

  ghost predicate SomeBlocks(matches: seq<RuleMatch>) {
    exists m :: m in matches && m.blocks
  }

  lemma FinalOfParts(a: seq<RuleMatch>, b: seq<RuleMatch>)
    ensures Final(a + b) == if SomeBlocks(a) || SomeBlocks(b) then Block else if a == [] && b == [] then Allow else Warn
  {
    if m :| m in a && m.blocks {
      assert m in a + b;
    }
    if m :| m in b && m.blocks {
      assert m in a + b;
    }
  }

  ghost predicate AllBlock(matches: seq<RuleMatch>) {
    forall m :: m in matches ==> m.blocks
  }

  lemma BlockersBlock(matches: seq<RuleMatch>)
    requires AllBlock(matches)
    ensures SomeBlocks(matches) <==> matches != []
  {
    if matches != [] {
      assert matches[0] in matches;
    }
  }

  lemma ListsBlock(p: Payment, policy: SpendPolicy)
    ensures AllBlock(ListMatches(p, policy))
    ensures ListMatches(p, policy) != [] <==> Unlisted(p, policy)
  {
  }

  lemma ScopeBlocks(p: Payment, policy: SpendPolicy)
    ensures SomeBlocks(ScopeMatches(p, policy)) <==> ScopeMatches(p, policy) != []
    ensures ScopeMatches(p, policy) != [] <==>
              Unlisted(p, policy) || p.amount < 0.0
              || (Upper(p.asset) in policy.perTxCap && p.amount > policy.perTxCap[Upper(p.asset)])
  {
    ListsBlock(p, policy);
    BlockersBlock(ListMatches(p, policy) + PerTxMatch(p, policy));
  }

  lemma LimitsBlockOrWarn(rows: seq<Row>, p: Payment, policy: SpendPolicy, c: Clock)
    ensures var limits, calls := LimitMatches(rows, p, policy, c), CallsSince(rows, p.agentId, c.callsAt - 60.0);
            && (SomeBlocks(limits) <==> OverRate(policy, calls))
            && (p.amount >= 0.0 ==> (limits != [] <==> OverRate(policy, calls) || Questioned(rows, p, policy, c)))
  {
    var limits := LimitMatches(rows, p, policy, c);
    if OverRate(policy, CallsSince(rows, p.agentId, c.callsAt - 60.0)) {
      assert RuleMatch("rate_limit_exceeded", true) in limits;
    }
  }

  /** Everything the scope rules refuse an action for. */
  predicate OutOfScope(a: ActionIntent, d: Declared, policy: SpendPolicy) {
    WronglyDeclared(a, d, policy.scope) || WronglyPlaced(a, d, policy)
  }

  /** A declared value outside its constraint: a list admits its members, any other
      constraint itself, and a missing value is null. */
  predicate Escapes(constraints: map<string, Value>, values: map<string, Value>) {
    exists key :: key in constraints &&
                  var actual := if key in values then values[key] else Null;
                  match constraints[key]
                  case Items(expected) => actual !in expected
                  case other => actual != other
  }

  predicate WronglyDeclared(a: ActionIntent, d: Declared, s: ScopePolicy) {
    || (s.actionTypes.Some? && forall x :: x in s.actionTypes.value ==> Lower(x) != Lower(a.actionType))
    || (s.purposes.Some? && forall x :: x in s.purposes.value ==> Lower(Strip(x)) != Lower(Strip(a.purpose)))
    || Escapes(s.context, a.declaredContext) || Escapes(s.inputProvenance, d.inputProvenance)
    || (s.executionGraph != map[]
        && (d.executionGraph.None?
            || exists key :: key in s.executionGraph
                             && s.executionGraph[key] != if key in d.executionGraph.value
                                                         then d.executionGraph.value[key] else Null))
  }

  predicate WronglyPlaced(a: ActionIntent, d: Declared, policy: SpendPolicy) {
    || WrongDestination(d, policy.scope)
    || (exists x :: x in policy.blockedPayees && Lower(x) == Lower(a.target))
    || (policy.scope.targets.Some? && forall x :: x in policy.scope.targets.value ==> Lower(x) != Lower(a.target))
    || (a.network.Some? && policy.allowedNetworks.Some?
        && forall x :: x in policy.allowedNetworks.value ==> Lower(x) != Lower(a.network.value))
    || (a.asset.Some? && policy.allowedAssets.Some?
        && forall x :: x in policy.allowedAssets.value ==> Upper(x) != Upper(a.asset.value))
  }

  /** Once destinations are governed there must be one, the declared or else the
      invoked, not blocked and listed. */
  predicate WrongDestination(d: Declared, s: ScopePolicy) {
    var declared := Strip(if d.destination.Some? then d.destination.value else "");
    var invoked := Strip(if d.invocationDestination.Some? then d.invocationDestination.value else "");
    var place := if declared == "" then invoked else declared;
    && (s.destinations.Some? || s.blockedDestinations != [])
    && (place == ""
        || (exists x :: x in s.blockedDestinations && Lower(x) == Lower(place))
        || (s.destinations.Some? && forall x :: x in s.destinations.value ==> Lower(x) != Lower(place)))
  }

  /** The exact amount counts, where there is one. */
  predicate AmountRefused(a: ActionIntent, policy: SpendPolicy) {
    var amount := if a.amountExact.Some? then Some(a.amountExact.value) else a.amount;
    && amount.Some? && a.asset.Some?
    && (amount.value < 0.0
        || (Upper(a.asset.value) in policy.perTxCap && amount.value > policy.perTxCap[Upper(a.asset.value)]))
  }

  lemma DeclaredBlocks(a: ActionIntent, d: Declared, s: ScopePolicy)
    ensures AllBlock(DeclaredMatches(a, d, s))
    ensures DeclaredMatches(a, d, s) != [] <==> WronglyDeclared(a, d, s)
  {
  }

  lemma PlaceBlocks(a: ActionIntent, d: Declared, policy: SpendPolicy)
    ensures AllBlock(PlaceMatches(a, d, policy))
    ensures PlaceMatches(a, d, policy) != [] <==> WronglyPlaced(a, d, policy)
  {
  }

  lemma ActionScopeBlocks(a: ActionIntent, d: Declared, policy: SpendPolicy)
    ensures SomeBlocks(ActionScopeMatches(a, d, policy)) <==> OutOfScope(a, d, policy)
    ensures ActionScopeMatches(a, d, policy) != [] <==> OutOfScope(a, d, policy)
  {
    DeclaredBlocks(a, d, policy.scope);
    PlaceBlocks(a, d, policy);
    BlockersBlock(DeclaredMatches(a, d, policy.scope) + PlaceMatches(a, d, policy));
  }

  /** The decision on a generic action: blocked exactly if it is out of scope, its
      exact amount is refused or the rate limit is reached, and allowed otherwise;
      it never asks for a confirmation. */
  lemma ActionDecisionExactly(rows: seq<Row>, a: ActionIntent, d: Declared, policy: SpendPolicy, c: Clock)
    ensures Final(ActionMatches(rows, a, d, policy, c))
         == if OutOfScope(a, d, policy) || AmountRefused(a, policy)
               || (policy.rateLimit != 0 && CallsSince(rows, a.agentId, c.callsAt - 60.0) >= policy.rateLimit)
            then Block else Allow
  {
    var scope, rest := ActionScopeMatches(a, d, policy), AmountMatch(a, policy) + ActionRateMatch(rows, a, policy, c);
    ActionScopeBlocks(a, d, policy);
    AmountAndRateBlock(rows, a, policy, c);
    FinalOfParts(scope, rest);
  }

  lemma AmountAndRateBlock(rows: seq<Row>, a: ActionIntent, policy: SpendPolicy, c: Clock)
    ensures var rest := AmountMatch(a, policy) + ActionRateMatch(rows, a, policy, c);
            && (SomeBlocks(rest) <==> rest != [])
            && (rest != [] <==>
                  AmountRefused(a, policy) || OverRate(policy, CallsSince(rows, a.agentId, c.callsAt - 60.0)))
  {
    var rest := AmountMatch(a, policy) + ActionRateMatch(rows, a, policy, c);
    if rest != [] {
      assert rest[0] in rest && rest[0].blocks;
    }
  }

  lemma ActionPassesOnlyIf(rows: seq<Row>, a: ActionIntent, d: Declared, policy: SpendPolicy, c: Clock)
    ensures Final(ActionMatches(rows, a, d, policy, c)) != Block ==>
              !OverRate(policy, CallsSince(rows, a.agentId, c.callsAt - 60.0))
  {
    ActionDecisionExactly(rows, a, d, policy, c);
  }

  /** What the record of a decision proves about the rows before it. */
  ghost predicate Justified(rows: seq<Row>, r: Row, policy: SpendPolicy, c: Clock) {
    && Forward(c) && r.createdAt == c.recordedAt
    && (r.kind == PaymentRow && r.decision != Block ==> r.amount >= 0.0)
    && (r.kind == PaymentRow && r.decision == Allow && Upper(r.asset) in policy.dailyCap ==>
          SpentSince(rows, r.agentId, r.asset, c.spendAt - 86400.0) + r.amount <= policy.dailyCap[Upper(r.asset)])
    && (r.decision != Block && policy.rateLimit != 0 ==>
          CallsSince(rows, r.agentId, c.callsAt - 60.0) < policy.rateLimit)
  }

  ghost predicate RowJustified(rows: seq<Row>, i: nat, policy: SpendPolicy)
    requires i < |rows|
  {
    exists c :: Justified(rows[..i], rows[i], policy, c)
  }

  ghost predicate TableJustified(rows: seq<Row>, policy: SpendPolicy) {
    forall i {:trigger RowJustified(rows, i, policy)} :: 0 <= i < |rows| ==> RowJustified(rows, i, policy)
  }

  ghost predicate ClockForward(run: seq<Op>) {
    forall i :: 0 <= i < |run| ==> Forward(run[i].clock)
  }

  lemma OpJustified(rows: seq<Row>, op: Op, policy: SpendPolicy)
    requires Forward(op.clock)
    ensures Justified(rows, RowOf(rows, op, policy), policy, op.clock)
  {
    match op {
      case Pay(p, c) =>
        PaymentJustified(rows, p, policy, c);
      case Act(a, d, c) =>
        ActionJustified(rows, a, d, policy, c);
    }
  }

  lemma PaymentJustified(rows: seq<Row>, p: Payment, policy: SpendPolicy, c: Clock)
    requires Forward(c)
    ensures Justified(rows, PaymentRecord(p, Final(PaymentMatches(rows, p, policy, c)), c.recordedAt), policy, c)
  {
    PaymentPassesOnlyIf(rows, p, policy, c);
  }

  lemma ActionJustified(rows: seq<Row>, a: ActionIntent, d: Declared, policy: SpendPolicy, c: Clock)
    requires Forward(c)
    ensures Justified(rows, ActionRecord(a, Final(ActionMatches(rows, a, d, policy, c)), c.recordedAt), policy, c)
  {
    ActionPassesOnlyIf(rows, a, d, policy, c);
  }

  lemma TableGrows(rows: seq<Row>, r: Row, policy: SpendPolicy, c: Clock)
    requires TableJustified(rows, policy) && Justified(rows, r, policy, c)
    ensures TableJustified(rows + [r], policy)
  {
    var longer := rows + [r];
    forall i | 0 <= i < |longer| ensures RowJustified(longer, i, policy) {
      if i < |rows| {
        assert RowJustified(rows, i, policy);
        var d :| Justified(rows[..i], rows[i], policy, d);
        assert longer[..i] == rows[..i];
        assert Justified(longer[..i], longer[i], policy, d);
      } else {
        assert longer[..i] == rows;
        assert Justified(longer[..i], longer[i], policy, c);
      }
    }
  }

  /** Every row of every run's table is justified by the rows before it. */
  lemma {:induction false} RunJustified(run: seq<Op>, policy: SpendPolicy)
    requires ClockForward(run)
    ensures TableJustified(Exec(run, policy), policy)
  {
    if run != [] {
      var front, op := run[..|run| - 1], Last(run);
      assert Forward(op.clock);
      RunJustified(front, policy);
      OpJustified(Exec(front, policy), op, policy);
      TableGrows(Exec(front, policy), RowOf(Exec(front, policy), op, policy), policy, op.clock);
    }
  }

  lemma FrontJustified(rows: seq<Row>, policy: SpendPolicy) returns (c: Clock)
    requires TableJustified(rows, policy) && rows != []
    ensures TableJustified(rows[..|rows| - 1], policy)
    ensures Justified(rows[..|rows| - 1], Last(rows), policy, c)
  {
    var front := rows[..|rows| - 1];
    forall i | 0 <= i < |front| ensures RowJustified(front, i, policy) {
      assert RowJustified(rows, i, policy);
      var d :| Justified(rows[..i], rows[i], policy, d);
      assert front[..i] == rows[..i];
      assert Justified(front[..i], front[i], policy, d);
    }
    var n := |rows| - 1;
    assert RowJustified(rows, n, policy);
    c :| Justified(rows[..n], rows[n], policy, c);
  }

  /** The spend query sees at least the allowed payments of any window it reaches
      back to, less what negative amounts took away. */
  lemma {:induction false} SpendCoversAllowed(rows: seq<Row>, policy: SpendPolicy, agent: string, asset: string,
                                              since: real,
                                              lo: real, hi: real)
    requires TableJustified(rows, policy) && since <= lo
    ensures SpentSince(rows, agent, asset, since) >= AllowedIn(rows, agent, asset, lo, hi) - Relief(rows, agent, asset)
  {
    if rows != [] {
      var _ := FrontJustified(rows, policy);
      SpendCoversAllowed(rows[..|rows| - 1], policy, agent, asset, since, lo, hi);
    }
  }

  lemma {:induction false} ReliefNonNegative(rows: seq<Row>, agent: string, asset: string)
    ensures Relief(rows, agent, asset) >= 0.0
    ensures (forall r :: r in rows && CountsAsSpend(r, agent, asset) ==> r.amount >= 0.0) ==>
              Relief(rows, agent, asset) == 0.0
  {
    if rows != [] {
      ReliefNonNegative(rows[..|rows| - 1], agent, asset);
      assert rows == rows[..|rows| - 1] + [Last(rows)];
      assert Last(rows) in rows;
    }
  }

  lemma {:induction false} CallsCoverPassed(rows: seq<Row>, agent: string, since: real, lo: real, hi: real)
    requires since <= lo
    ensures PassedIn(rows, agent, lo, hi) <= CallsSince(rows, agent, since)
  {
    if rows != [] {
      CallsCoverPassed(rows[..|rows| - 1], agent, since, lo, hi);
    }
  }

  lemma {:induction false} TableDailyCap(rows: seq<Row>, policy: SpendPolicy, agent: string, asset: string, lo: real)
    requires TableJustified(rows, policy) && Upper(asset) in policy.dailyCap
    ensures AllowedIn(rows, agent, asset, lo, lo + 86400.0)
              <= MaxReal(policy.dailyCap[Upper(asset)], 0.0) + Relief(rows, agent, asset)
  {
    if rows != [] {
      var front, r := rows[..|rows| - 1], Last(rows);
      var c := FrontJustified(rows, policy);
      TableDailyCap(front, policy, agent, asset, lo);
      ReliefNonNegative(front, agent, asset);
      if r.agentId == agent && r.asset == asset && InWindow(r, lo, lo + 86400.0) {
        SpendCoversAllowed(front, policy, agent, asset, c.spendAt - 86400.0, lo, lo + 86400.0);
      }
    }
  }

  lemma {:induction false} TableRateLimit(rows: seq<Row>, policy: SpendPolicy, agent: string, lo: real)
    requires TableJustified(rows, policy) && policy.rateLimit != 0
    ensures PassedIn(rows, agent, lo, lo + 60.0) <= if policy.rateLimit > 0 then policy.rateLimit else 0
  {
    if rows != [] {
      var front, r := rows[..|rows| - 1], Last(rows);
      var c := FrontJustified(rows, policy);
      TableRateLimit(front, policy, agent, lo);
      if r.agentId == agent && InWindow(r, lo, lo + 60.0) {
        CallsCoverPassed(front, agent, c.callsAt - 60.0, lo, lo + 60.0);
      }
    }
  }

  /** Rolling spend, for every run: in any 24 hours the allowed payments of one
      agent in one exact asset string sum to at most the daily cap, plus whatever
      negative amounts recorded for generic actions gave back. The clock readings
      of a payment may lie any distance apart. */
  lemma {:induction false} DailyCapBounds(run: seq<Op>, policy: SpendPolicy, agent: string, asset: string, lo: real)
    requires ClockForward(run) && Upper(asset) in policy.dailyCap
    ensures var rows := Exec(run, policy);
            AllowedIn(rows, agent, asset, lo, lo + 86400.0)
              <= MaxReal(policy.dailyCap[Upper(asset)], 0.0) + Relief(rows, agent, asset)
  {
    RunJustified(run, policy);
    TableDailyCap(Exec(run, policy), policy, agent, asset, lo);
  }

  /** Rolling rate, for every run: in any 60 seconds an agent has at most the rate
      limit of decisions that are not BLOCK, payments and actions together. */
  lemma {:induction false} RateLimitBounds(run: seq<Op>, policy: SpendPolicy, agent: string, lo: real)
    requires ClockForward(run) && policy.rateLimit != 0
    ensures PassedIn(Exec(run, policy), agent, lo, lo + 60.0) <= if policy.rateLimit > 0 then policy.rateLimit else 0
  {
    RunJustified(run, policy);
    TableRateLimit(Exec(run, policy), policy, agent, lo);
  }

  lemma PaymentsNonNegative(rows: seq<Row>, policy: SpendPolicy)
    requires TableJustified(rows, policy)
    ensures forall r :: r in rows && r.kind == PaymentRow && r.decision != Block ==> r.amount >= 0.0
  {
    forall i | 0 <= i < |rows| && rows[i].kind == PaymentRow && rows[i].decision != Block
      ensures rows[i].amount >= 0.0
    {
      assert RowJustified(rows, i, policy);
    }
  }

  /** The cap itself, whenever no generic action of the agent recorded a negative
      amount for that asset. */
  lemma {:induction false} DailyCapHolds(run: seq<Op>, policy: SpendPolicy, agent: string, asset: string, lo: real)
    requires ClockForward(run) && Upper(asset) in policy.dailyCap
    requires forall r :: r in Exec(run, policy) && r.kind == ActionRow && CountsAsSpend(r, agent, asset) ==>
               r.amount >= 0.0
    ensures AllowedIn(Exec(run, policy), agent, asset, lo, lo + 86400.0) <= MaxReal(policy.dailyCap[Upper(asset)], 0.0)
  {
    DailyCapBounds(run, policy, agent, asset, lo);
    RunJustified(run, policy);
    PaymentsNonNegative(Exec(run, policy), policy);
    ReliefNonNegative(Exec(run, policy), agent, asset);
  }

  // ------------------------------------------------- when the cap can be exceeded

  function BarePolicy(cap: real): SpendPolicy {
    SpendPolicy(ScopePolicy(None, None, map[], map[], map[], None, [], None),
                [], None, None, None, map[], map[], map["USDC" := cap], map[], 0)
  }

  ghost predicate RecordedAtLeast(run: seq<Op>, floor: real) {
    forall i :: 0 <= i < |run| && run[i].Act? ==> run[i].action.amount.GetOr(0.0) >= floor
  }

  ghost predicate CapKept(run: seq<Op>, cap: real) {
    forall agent, lo, hi :: hi == lo + 86400.0 ==> AllowedIn(Exec(run, BarePolicy(cap)), agent, "USDC", lo, hi) <= cap
  }

  function PayOp(amount: real): Op {
    Pay(Payment("pay", "agent", "shop", "USDC", "base", amount), Clock(0.0, 0.0, 0.0))
  }

  /** The exact amount is valid, the recorded one negative. */
  function RefundOp(amount: real): Op {
    Act(ActionIntent("act", "agent", "note", "shop", "", Some(-amount), Some(0.0), Some("USDC"), None, "", map[], None),
        Declared(map[], None, None, None),
        Clock(0.0, 0.0, 0.0))
  }

  /** Spend the whole cap, record a negative amount, spend it again. */
  function Overspend(cap: real, extra: real): seq<Op> {
    [PayOp(cap), RefundOp(extra), PayOp(extra)]
  }

  lemma UsdcUpper()
    ensures Upper("USDC") == "USDC"
  {
  }

  lemma ExecSnoc(run: seq<Op>, op: Op, policy: SpendPolicy)
    ensures Exec(run + [op], policy) == Exec(run, policy) + [RowOf(Exec(run, policy), op, policy)]
  {
    assert (run + [op])[..|run|] == run;
  }

  /** Under the bare policy a payment inside the cap is allowed. */
  lemma BareAllows(rows: seq<Row>, amount: real, cap: real)
    requires amount >= 0.0 && 0.0 <= SpentSince(rows, "agent", "USDC", 0.0 - 86400.0) <= cap - amount
    ensures RowOf(rows, PayOp(amount), BarePolicy(cap)) == PaymentRecord(PayOp(amount).payment, Allow, 0.0)
  {
    UsdcUpper();
    var p, policy, c := PayOp(amount).payment, BarePolicy(cap), PayOp(amount).clock;
    assert !OverDaily(p, policy, SpentSince(rows, "agent", "USDC", 0.0 - 86400.0));
    assert ScopeMatches(p, policy) == [] && LimitMatches(rows, p, policy, c) == [];
  }

  function OverspendRows(cap: real, extra: real): seq<Row> {
    [PaymentRecord(PayOp(cap).payment, Allow, 0.0), ActionRecord(RefundOp(extra).action, Allow, 0.0),
     PaymentRecord(PayOp(extra).payment, Allow, 0.0)]
  }

  lemma FirstPayment(cap: real)
    requires cap > 0.0
    ensures Exec([PayOp(cap)], BarePolicy(cap)) == [PaymentRecord(PayOp(cap).payment, Allow, 0.0)]
  {
    ExecSnoc([], PayOp(cap), BarePolicy(cap));
    BareAllows([], cap, cap);
    assert [] + [PayOp(cap)] == [PayOp(cap)];
  }

  lemma RefundAllowed(rows: seq<Row>, cap: real, extra: real)
    ensures RowOf(rows, RefundOp(extra), BarePolicy(cap)) == ActionRecord(RefundOp(extra).action, Allow, 0.0)
  {
    var op := RefundOp(extra);
    ActionDecisionExactly(rows, op.action, op.declared, BarePolicy(cap), op.clock);
  }

  lemma SpentAfterRefund(cap: real, extra: real)
    ensures SpentSince(OverspendRows(cap, extra)[..2], "agent", "USDC", 0.0 - 86400.0) == cap - extra
  {
    var rows := OverspendRows(cap, extra);
    assert rows[..2][..1] == rows[..1] && rows[..1][..0] == [];
    assert SpentSince(rows[..1], "agent", "USDC", 0.0 - 86400.0) == cap;
  }

  lemma OverspendRuns(cap: real, extra: real)
    requires 0.0 < extra <= cap
    ensures Exec(Overspend(cap, extra), BarePolicy(cap)) == OverspendRows(cap, extra)
  {
    var run, rows, policy := Overspend(cap, extra), OverspendRows(cap, extra), BarePolicy(cap);
    FirstPayment(cap);
    assert run[..1] == [PayOp(cap)] && run[..1] + [run[1]] == run[..2] && run[..2] + [run[2]] == run;
    ExecSnoc(run[..1], run[1], policy);
    RefundAllowed(rows[..1], cap, extra);
    assert Exec(run[..2], policy) == rows[..2];
    SpentAfterRefund(cap, extra);
    ExecSnoc(run[..2], run[2], policy);
    BareAllows(rows[..2], extra, cap);
  }

  lemma Overspends(cap: real, extra: real)
    requires 0.0 < extra <= cap
    ensures AllowedIn(Exec(Overspend(cap, extra), BarePolicy(cap)), "agent", "USDC", 0.0, 86400.0) == cap + extra
  {
    OverspendRuns(cap, extra);
    var rows := OverspendRows(cap, extra);
    assert rows[..2][..1] == rows[..1] && rows[..1][..0] == [];
    assert AllowedIn(rows[..1], "agent", "USDC", 0.0, 86400.0) == cap;
    assert AllowedIn(rows[..2], "agent", "USDC", 0.0, 86400.0) == cap;
  }

  /** The cap is kept in every run exactly if generic actions cannot record
      negative amounts; any lower floor, however small, admits a run that breaks
      it. */
  lemma CapKeptExactly(cap: real, floor: real)
    requires cap > 0.0
    ensures (forall run :: ClockForward(run) && RecordedAtLeast(run, floor) ==> CapKept(run, cap)) <==> floor >= 0.0
  {
    if floor >= 0.0 {
      forall run | ClockForward(run) && RecordedAtLeast(run, floor) ensures CapKept(run, cap) {
        KeptWithoutNegatives(run, cap, floor);
      }
    } else {
      OverspendBreaksCap(cap, MinReal(-floor, cap), floor);
    }
  }

  lemma KeptWithoutNegatives(run: seq<Op>, cap: real, floor: real)
    requires cap > 0.0 && floor >= 0.0 && ClockForward(run) && RecordedAtLeast(run, floor)
    ensures CapKept(run, cap)
  {
    UsdcUpper();
    ActionRowsAtLeast(run, BarePolicy(cap), floor);
    forall agent, lo, hi | hi == lo + 86400.0
      ensures AllowedIn(Exec(run, BarePolicy(cap)), agent, "USDC", lo, hi) <= cap
    {
      DailyCapHolds(run, BarePolicy(cap), agent, "USDC", lo);
    }
  }

  lemma OverspendRecords(cap: real, extra: real, floor: real)
    requires -extra >= floor
    ensures ClockForward(Overspend(cap, extra)) && RecordedAtLeast(Overspend(cap, extra), floor)
  {
  }

  lemma OverspendBreaksCap(cap: real, extra: real, floor: real)
    requires 0.0 < extra <= cap && -extra >= floor
    ensures ClockForward(Overspend(cap, extra)) && RecordedAtLeast(Overspend(cap, extra), floor)
    ensures !CapKept(Overspend(cap, extra), cap)
  {
    OverspendRecords(cap, extra, floor);
    var run := Overspend(cap, extra);
    assert AllowedIn(Exec(run, BarePolicy(cap)), "agent", "USDC", 0.0, 86400.0) > cap by {
      Overspends(cap, extra);
    }
    NotKept(run, cap, "agent", 0.0, 86400.0);
  }

  lemma NotKept(run: seq<Op>, cap: real, agent: string, lo: real, hi: real)
    requires hi == lo + 86400.0 && AllowedIn(Exec(run, BarePolicy(cap)), agent, "USDC", lo, hi) > cap
    ensures !CapKept(run, cap)
  {
  }

  lemma {:induction false} ActionRowsAtLeast(run: seq<Op>, policy: SpendPolicy, floor: real)
    requires RecordedAtLeast(run, floor)
    ensures forall r :: r in Exec(run, policy) && r.kind == ActionRow ==> r.amount >= floor
  {
    if run != [] {
      ActionRowsAtLeast(run[..|run| - 1], policy, floor);
    }
  }

  // ---------------------------------------------------------------------- engine

  class GuardrailEngine {
    const policy: SpendPolicy
    var rows: seq<Row>

    constructor (policy: SpendPolicy)
      ensures this.policy == policy && rows == []
    {
      this.policy, rows := policy, [];
    }

    method SpentToday(agent: string, asset: string, now: real) returns (spent: real)
      ensures spent == SpentSince(rows, agent, asset, now - 86400.0)
    {
      spent := 0.0;
      for k := 0 to |rows|
        invariant spent == SpentSince(rows[..k], agent, asset, now - DAY)
      {
        assert rows[..k + 1][..k] == rows[..k];
        if rows[k].agentId == agent && rows[k].asset == asset && rows[k].createdAt >= now - DAY
           && rows[k].decision != Block
        {
          spent := spent + rows[k].amount;
        }
      }
      assert rows[..|rows|] == rows;
    }

    method CallsLastMinute(agent: string, now: real) returns (calls: nat)
      ensures calls == CallsSince(rows, agent, now - 60.0)
    {
      calls := 0;
      for k := 0 to |rows|
        invariant calls == CallsSince(rows[..k], agent, now - MINUTE)
      {
        assert rows[..k + 1][..k] == rows[..k];
        if rows[k].agentId == agent && rows[k].createdAt >= now - MINUTE {
          calls := calls + 1;
        }
      }
      assert rows[..|rows|] == rows;
    }

    method PayeeSeenBefore(agent: string, payee: string, exclude: string) returns (seen: bool)
      ensures seen <==> PayeeSeen(rows, agent, payee, exclude)
      ensures seen <==> exists r :: r in rows && r.agentId == agent && r.payee == payee && r.intentId != exclude
                                    && (r.decision == Allow || r.decision == Warn)
    {
      for k := 0 to |rows|
        invariant forall i :: 0 <= i < k ==> !(rows[i].agentId == agent && rows[i].payee == payee
                                               && rows[i].intentId != exclude && rows[i].decision != Block)
      {
        if rows[k].agentId == agent && rows[k].payee == payee && rows[k].intentId != exclude
           && rows[k].decision != Block
        {
          return true;
        }
      }
      return false;
    }

    method CheckScope(p: Payment) returns (matches: seq<RuleMatch>)
      ensures matches == ScopeMatches(p, policy)
    {
      matches := When(ListedLower(p.payee, policy.blockedPayees), "blocked_payee", true);
      matches := matches + When(policy.allowedPayees.Some? && !ListedLower(p.payee, policy.allowedPayees.value),
                                "payee_not_allowlisted", true);
      matches := matches + When(policy.allowedNetworks.Some? && !ListedLower(p.network, policy.allowedNetworks.value),
                                "network_not_allowed", true);
      matches := matches + When(policy.allowedAssets.Some? && !ListedUpper(p.asset, policy.allowedAssets.value),
                                "asset_not_allowed", true);
      matches := matches + PerTxMatch(p, policy);
    }

    method CheckLimits(p: Payment, c: Clock) returns (matches: seq<RuleMatch>)
      ensures matches == LimitMatches(rows, p, policy, c)
    {
      var seen := PayeeSeenBefore(p.agentId, p.payee, p.intentId);
      matches := When(!seen && Over(policy.newPayeeCap, p.asset, p.amount), "new_payee_cap_exceeded", false);
      var spent := SpentToday(p.agentId, p.asset, c.spendAt);
      matches := matches + When(OverDaily(p, policy, spent), "daily_cap_exceeded", false);
      matches := matches + When(Over(policy.confirmationOver, p.asset, p.amount), "confirmation_required", false);
      var calls := CallsLastMinute(p.agentId, c.callsAt);
      matches := matches + When(OverRate(policy, calls), "rate_limit_exceeded", true);
    }

    /** Reads, decision and record are one transaction. */
    method Evaluate(p: Payment, c: Clock) returns (decision: Decision)
      modifies this`rows
      ensures rows == old(rows) + [RowOf(old(rows), Pay(p, c), policy)]
      ensures decision == Last(rows).decision
      ensures decision == if Refused(old(rows), p, policy, c) then Block
                          else if Questioned(old(rows), p, policy, c) then Warn else Allow
    {
      var scope := CheckScope(p);
      var limits := CheckLimits(p, c);
      decision := Final(scope + limits);
      PaymentDecisionExactly(rows, p, policy, c);
      rows := rows + [PaymentRecord(p, decision, c.recordedAt)];
    }

    method CheckDeclared(a: ActionIntent, d: Declared) returns (matches: seq<RuleMatch>)
      ensures matches == DeclaredMatches(a, d, policy.scope)
    {
      var s := policy.scope;
      matches := When(s.actionTypes.Some? && !ListedLower(a.actionType, s.actionTypes.value),
                      "action_type_not_allowed", true);
      matches := matches + When(s.purposes.Some? && !PurposeStripped(a.purpose, s.purposes.value),
                                "purpose_not_allowed", true);
      matches := matches + When(Outside(s.context, a.declaredContext), "context_not_allowed", true);
      matches := matches + When(Outside(s.inputProvenance, d.inputProvenance), "input_provenance_not_allowed", true);
      matches := matches + GraphMatch(d, s.executionGraph);
    }

    method CheckPlace(a: ActionIntent, d: Declared) returns (matches: seq<RuleMatch>)
      ensures matches == PlaceMatches(a, d, policy)
    {
      matches := DestinationMatch(d, policy.scope);
      matches := matches + TargetMatch(a, policy);
      matches := matches + When(a.network.Some? && policy.allowedNetworks.Some?
                                && !ListedLower(a.network.value, policy.allowedNetworks.value),
                                "network_not_allowed", true);
      matches := matches + When(a.asset.Some? && policy.allowedAssets.Some?
                                && !ListedUpper(a.asset.value, policy.allowedAssets.value),
                                "asset_not_allowed", true);
    }

    method CheckActionLimits(a: ActionIntent, c: Clock) returns (matches: seq<RuleMatch>)
      ensures matches == AmountMatch(a, policy) + ActionRateMatch(rows, a, policy, c)
    {
      matches := AmountMatch(a, policy);
      var calls := CallsLastMinute(a.agentId, c.callsAt);
      matches := matches + When(OverRate(policy, calls), "rate_limit_exceeded", true);
    }

    method EvaluateAction(a: ActionIntent, d: Declared, c: Clock) returns (decision: Decision)
      modifies this`rows
      ensures rows == old(rows) + [RowOf(old(rows), Act(a, d, c), policy)]
      ensures decision == Last(rows).decision
    {
      var declared := CheckDeclared(a, d);
      var place := CheckPlace(a, d);
      var limits := CheckActionLimits(a, c);
      decision := Final(declared + place + limits);
      ActionRowOf(rows, a, d, policy, c, declared + place, limits);
      rows := rows + [ActionRecord(a, decision, c.recordedAt)];
    }
  }

  lemma ActionRowOf(rows: seq<Row>, a: ActionIntent, d: Declared, policy: SpendPolicy, c: Clock,
                    scope: seq<RuleMatch>, limits: seq<RuleMatch>)
    requires scope == ActionScopeMatches(a, d, policy)
    requires limits == AmountMatch(a, policy) + ActionRateMatch(rows, a, policy, c)
    ensures RowOf(rows, Act(a, d, c), policy) == ActionRecord(a, Final(scope + limits), c.recordedAt)
  {
    assert ActionMatches(rows, a, d, policy, c) == scope + limits;
  }
}
