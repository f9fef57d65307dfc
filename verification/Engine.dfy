/** The daily event loop: corporate actions, stale exits, rebalance, accounting check. */
module Engine {
  import opened Arithmetic
  import opened Domain
  import opened Markets
  import opened Costs
  import opened Ledger
  import opened Trading
  import Sorting

  const STALE_EXIT_DAYS := 15

  /** A strategy maps the dataset, the decision clock, the positions and the portfolio value to
      target share counts; that it reads the dataset only through the clock-bound context is a
      property of the strategy, stated where it is needed. */
  type Strategy = (Market, Date, Positions, real) -> Positions

  /** `prior` is the trading day before the first session, `rebalanceDays` the scheduled sessions. */
  datatype Config = Config(
    costs: CostConfig, initialCash: Positive, start: Date,
    sessions: seq<Date>, prior: Date, rebalanceDays: set<Date>)

  datatype DailyRow = DailyRow(on: Date, value: real, cash: real, positions: nat)

  datatype RebalanceRow = RebalanceRow(on: Date, trades: nat, tradedValue: real, turnover: real, costs: real)

  datatype RunState = RunState(book: Book, daily: seq<DailyRow>, rebalances: seq<RebalanceRow>)

  // ----- corporate actions and stale exits

  function ToQuoteUnit(amount: Positive, currency: Currency): Option<real> {
    match currency
    case GBX => Some(amount)
    case GBP => Some(Times(amount, 100.0))
    case Foreign => None
  }

  function LastClose(m: Market, sid: SecurityId, day: Date): Option<real> {
    var found := LastPrint(m, sid, day);
    if found.None? then None else Some(found.value.close)
  }

  /** Cash per share at a delisting: nothing for a failure, else the last traded close. */
  function DelistingCash(m: Market, sid: SecurityId, reason: DelistingReason, day: Date): Option<real> {
    if reason.FailureExit? then Some(0.0) else LastClose(m, sid, day)
  }

  function ApplyAction(m: Market, b: Book, a: Action, day: Date): Result<Book, LedgerError> {
    match a
    case Split(sid, _, _, newShares, oldShares) =>
      var mark := LastClose(m, sid, day);
      if mark.Some? && Quantity(b.positions, sid) > 0 then ApplySplit(b, sid, newShares, oldShares, mark.value, day)
      else Success(b)
    case Dividend(sid, _, _, amount, currency) =>
      var perShare := ToQuoteUnit(amount, currency);
      if perShare.Some? then CreditDividend(b, sid, perShare.value, day) else Success(b)
    case Merger(sid, _, _, cash, currency) =>
      if cash.Some? then ResolveDelisting(b, sid, ToQuoteUnit(cash.value, currency), day) else Success(b)
    case DelistingAction(sid, _, _, reason) =>
      ResolveDelisting(b, sid, DelistingCash(m, sid, reason, day), day)
    case RightsIssue(_, _, _) => Success(b)
    case TickerChangeAction(_, _, _) => Success(b)
  }

  function ApplyActions(m: Market, b: Book, actions: seq<Action>, day: Date): Result<Book, LedgerError>
    decreases |actions|
  {
    if actions == [] then Success(b)
    else
      match ApplyAction(m, b, actions[0], day)
      case Failure(e) => Failure(e)
      case Success(next) => ApplyActions(m, next, actions[1..], day)
  }

  predicate Stale(m: Market, sid: SecurityId, day: Date) {
    LastPrint(m, sid, day).Some? && day - LastPrint(m, sid, day).value.date > STALE_EXIT_DAYS
  }

  function ExitIfStale(m: Market, b: Book, sid: SecurityId, day: Date): Result<Book, LedgerError> {
    if Stale(m, sid, day) then ResolveDelisting(b, sid, LastClose(m, sid, day), day) else Success(b)
  }

  function ExitStale(m: Market, b: Book, ids: seq<SecurityId>, day: Date): Result<Book, LedgerError>
    decreases |ids|
  {
    if ids == [] then Success(b)
    else
      match ExitIfStale(m, b, ids[0], day)
      case Failure(e) => Failure(e)
      case Success(next) => ExitStale(m, next, ids[1..], day)
  }

  function HeldIds(b: Book): seq<SecurityId> {
    Sorting.Ascending(b.positions.Keys)
  }

  /** Everything that happens on a session before any rebalance. */
  function OpenDay(m: Market, b: Book, day: Date): Result<Book, LedgerError> {
    match ApplyActions(m, b, EffectiveOn(m.actions, day), day)
    case Failure(e) => Failure(e)
    case Success(next) => ExitStale(m, next, HeldIds(next), day)
  }

  // ----- marks, rebalance, close

  predicate AllMarked(m: Market, positions: Positions, day: Date) {
    forall sid :: sid in positions ==> LastPrint(m, sid, day).Some?
  }

  function MarksOn(m: Market, positions: Positions, day: Date): Result<Marks, LedgerError> {
    if AllMarked(m, positions, day) then
      Success(map sid | sid in positions :: (LastPrint(m, sid, day).value.close as real))
    else Failure(NoPrice)
  }

  ghost function ValueOn(m: Market, b: Book, day: Date): Result<real, LedgerError> {
    match MarksOn(m, b.positions, day)
    case Failure(e) => Failure(e)
    case Success(marks) => ValueAt(b, marks)
  }

  /** The previous session, even on the first day of the run. */
  function DecisionClock(cfg: Config, i: nat): Date
    requires i < |cfg.sessions|
  {
    if i > 0 then cfg.sessions[i - 1] else cfg.prior
  }

  function TradesIn(events: seq<LedgerEvent>): seq<LedgerEvent> {
    if events == [] then []
    else if (events[0].kind == BuyTrade || events[0].kind == SellTrade) && events[0].price.Some?
    then [events[0]] + TradesIn(events[1..])
    else TradesIn(events[1..])
  }

  function TradedTotal(trades: seq<LedgerEvent>): real {
    if trades == [] then 0.0
    else
      var q := trades[0].quantityDelta;
      (if trades[0].price.Some? then Times(trades[0].price.value, (if q < 0 then -q else q) as real) else 0.0)
      + TradedTotal(trades[1..])
  }

  function RowFor(trades: seq<LedgerEvent>, preTradeValue: real, day: Date): RebalanceRow {
    var traded := TradedTotal(trades);
    RebalanceRow(day, |trades|, traded, if preTradeValue <= 0.0 then 0.0 else traded / 2.0 / preTradeValue, CostTotal(trades))
  }

  function EventsSince(b: Book, count: nat): seq<LedgerEvent> {
    if count <= |b.events| then b.events[count..] else []
  }

  ghost function Rebalance(m: Market, cfg: Config, strategy: Strategy, st: RunState, i: nat): Result<RunState, LedgerError>
    requires i < |cfg.sessions|
  {
    var day := cfg.sessions[i];
    match ValueOn(m, st.book, day)
    case Failure(e) => Failure(e)
    case Success(value) =>
      var targets := strategy(m, DecisionClock(cfg, i), st.book.positions, value);
      match Execute(m, cfg.costs, st.book, targets, day)
      case Failure(e) => Failure(e)
      case Success(after) =>
        Success(RunState(after, st.daily, st.rebalances + [RowFor(TradesIn(EventsSince(after, |st.book.events|)), value, day)]))
  }

  /** Mark the book, check the log against it, and record the day. */
  ghost function CloseDay(m: Market, st: RunState, day: Date): Result<RunState, LedgerError> {
    match ValueOn(m, st.book, day)
    case Failure(e) => Failure(e)
    case Success(value) =>
      if Replay(st.book.events) != (st.book.cash, st.book.positions) then Failure(IdentityBroken)
      else Success(st.(daily := st.daily + [DailyRow(day, value, st.book.cash, |st.book.positions|)]))
  }

  ghost function DayStep(m: Market, cfg: Config, strategy: Strategy, st: RunState, i: nat): Result<RunState, LedgerError>
    requires i < |cfg.sessions|
  {
    var day := cfg.sessions[i];
    match OpenDay(m, st.book, day)
    case Failure(e) => Failure(e)
    case Success(open) =>
      var atOpen := st.(book := open);
      match (if day in cfg.rebalanceDays then Rebalance(m, cfg, strategy, atOpen, i) else Success(atOpen))
      case Failure(e) => Failure(e)
      case Success(traded) => CloseDay(m, traded, day)
  }

  /** The state after the first `n` sessions. */
  ghost function RunThrough(m: Market, cfg: Config, strategy: Strategy, n: nat): Result<RunState, LedgerError>
    requires n <= |cfg.sessions|
    decreases n
  {
    if n == 0 then
      match Opened(cfg.initialCash, cfg.start)
      case Failure(e) => Failure(e)
      case Success(b) => Success(RunState(b, [], []))
    else
      match RunThrough(m, cfg, strategy, n - 1)
      case Failure(e) => Failure(e)
      case Success(st) => DayStep(m, cfg, strategy, st, n - 1)
  }
}
