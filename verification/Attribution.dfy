/** Where the value of a run comes from: price moves, the events of the log, and trading costs. */
module Attribution {
  import opened Arithmetic
  import opened Domain
  import opened Markets
  import opened Ledger
  import opened Trading
  import opened Engine
  import opened EngineSafety
  import Costs
  import Sums

  // ----- the log accounts for the value

  /** What an event adds to value at given marks: its cash, and its quantity at its security's mark. */
  function Contribution(e: LedgerEvent, marks: Marks): real {
    if e.quantityDelta != 0 && e.sid.Some? && e.sid.value in marks
    then e.cashDelta + Times(marks[e.sid.value], e.quantityDelta as real)
    else e.cashDelta
  }

  function Contributions(events: seq<LedgerEvent>, marks: Marks): real {
    if events == [] then 0.0 else Contributions(events[..|events| - 1], marks) + Contribution(events[|events| - 1], marks)
  }

  lemma UnmarkedWorth(positions: Positions, marks: Marks, sid: SecurityId, quantity: int)
    requires sid !in marks
    ensures Worth(SetQuantity(positions, sid, quantity), marks) == Worth(positions, marks)
  {
    var after := SetQuantity(positions, sid, quantity);
    WorthSplit(positions, marks, sid);
    WorthSplit(after, marks, sid);
    assert after - {sid} == positions - {sid};
  }

  lemma MovedWorth(positions: Positions, e: LedgerEvent, marks: Marks)
    ensures e.cashDelta + Worth(Moved(positions, e), marks) == Worth(positions, marks) + Contribution(e, marks)
  {
    hide Times;
    hide Worth;
    if e.quantityDelta != 0 && e.sid.Some? {
      var sid := e.sid.value;
      var q := Quantity(positions, sid);
      if sid in marks {
        WorthAfter(positions, marks, sid, q + e.quantityDelta);
        TimesUnits(marks[sid]);
        TimesOverSum(marks[sid], q as real, e.quantityDelta as real);
        assert (q + e.quantityDelta) as real == q as real + e.quantityDelta as real;
      } else {
        UnmarkedWorth(positions, marks, sid, q + e.quantityDelta);
      }
    }
  }

  /** At any marks, the value the log replays to is the sum of what its events contribute. */
  lemma {:induction false} LogAccountsForValue(events: seq<LedgerEvent>, marks: Marks)
    ensures Replay(events).0 + Worth(Replay(events).1, marks) == Contributions(events, marks)
  {
    if events == [] {
      NothingHeld(map[], marks);
    } else {
      LogAccountsForValue(events[..|events| - 1], marks);
      MovedWorth(Replay(events[..|events| - 1]).1, events[|events| - 1], marks);
    }
  }

  lemma {:induction false} ContributionsConcat(a: seq<LedgerEvent>, b: seq<LedgerEvent>, marks: Marks)
    ensures Contributions(a + b, marks) == Contributions(a, marks) + Contributions(b, marks)
    decreases |b|
  {
    if b == [] {
      assert a + b == a;
    } else {
      assert (a + b)[..|a + b| - 1] == a + b[..|b| - 1];
      ContributionsConcat(a, b[..|b| - 1], marks);
    }
  }

  /** Between two sound books, one's log extending the other's, value moves by exactly what the new
      events contribute. */
  lemma NewEventsAccountForValue(b: Book, r: Book, marks: Marks)
    requires Sound(b) && Sound(r) && b.events <= r.events
    ensures ValueOf(r, marks) == ValueOf(b, marks) + Contributions(r.events[|b.events|..], marks)
  {
    LogAccountsForValue(b.events, marks);
    LogAccountsForValue(r.events, marks);
    assert r.events == b.events + r.events[|b.events|..];
    ContributionsConcat(b.events, r.events[|b.events|..], marks);
  }

  // ----- the rebalance row

  lemma {:induction false} AllTrades(m: Market, cfg: Costs.CostConfig, events: seq<LedgerEvent>, day: Date)
    requires OnlyChargedTrades(m, cfg, events, day)
    ensures TradesIn(events) == events
  {
    if events != [] {
      OnlyTradesParts(m, cfg, events, day);
      TradeParts(m, cfg, events[0], day);
      hide OnlyChargedTrades;
      AllTrades(m, cfg, events[1..], day);
      assert events == [events[0]] + events[1..];
    }
  }

  lemma SameMap<K, V>(x: map<K, V>, y: map<K, V>)
    requires forall k :: (k in x <==> k in y) && (k in x ==> x[k] == y[k])
    ensures x == y
  {
  }

  lemma WorthAlike(positions: Positions, a: Marks, b: Marks)
    requires forall sid :: sid in positions ==> sid in a && sid in b && a[sid] == b[sid]
    ensures Worth(positions, a) == Worth(positions, b)
  {
    var x := map sid | sid in positions && sid in a :: Times(a[sid], positions[sid] as real);
    var y := map sid | sid in positions && sid in b :: Times(b[sid], positions[sid] as real);
    hide Times;
    forall sid
      ensures sid in x <==> sid in y
      ensures sid in x ==> x[sid] == y[sid]
    {
    }
    SameMap(x, y);
  }

  lemma ValueOnMarked(m: Market, b: Book, day: Date, marks: Marks)
    requires AllMarked(m, b.positions, day) && DayMarks(m, day, marks)
    ensures ValueOn(m, b, day) == Success(ValueOf(b, marks))
  {
    hide LastPrint;
    hide Worth;
    WorthAlike(b.positions, MarksOn(m, b.positions, day).value, marks);
  }

  /** The row a rebalance records counts every event it added to the log, each a trade, and its costs
      are exactly the fall in value at the day's marks. */
  lemma RebalanceRowAccounts(m: Market, cfg: Config, strategy: Strategy, st: RunState, i: nat, marks: Marks)
    requires i < |cfg.sessions| && NonNegativeStrategy(strategy) && Sound(st.book)
    requires AllMarked(m, st.book.positions, cfg.sessions[i]) && NoneStale(m, st.book.positions, cfg.sessions[i])
    requires DayMarks(m, cfg.sessions[i], marks)
    ensures var r := Rebalance(m, cfg, strategy, st, i);
            && r.Success? && |r.value.rebalances| == |st.rebalances| + 1 && st.book.events <= r.value.book.events
            && var row, traded := r.value.rebalances[|st.rebalances|], r.value.book.events[|st.book.events|..];
            && row.on == cfg.sessions[i] && row.trades == |traded| && TradesIn(traded) == traded
            && row.costs == CostTotal(traded) == ValueOf(st.book, marks) - ValueOf(r.value.book, marks)
  {
    var day := cfg.sessions[i];
    ValueOnMarked(m, st.book, day, marks);
    var value := ValueOn(m, st.book, day).value;
    var targets := strategy(m, DecisionClock(cfg, i), st.book.positions, value);
    assert NonNegativeTargets(targets);
    RebalanceConservesValue(m, cfg.costs, st.book, targets, day, marks);
    hide Execute;
    hide ValueOn;
    hide DayMarks;
    var after := Execute(m, cfg.costs, st.book, targets, day).value;
    AllTrades(m, cfg.costs, after.events[|st.book.events|..], day);
  }

  // ----- a session, and a run

  /** What holdings gain as marks move. */
  ghost function PriceMove(positions: Positions, past: Marks, now: Marks): real {
    Sums.Total(map sid | sid in positions && sid in past && sid in now :: Times(now[sid] - past[sid], positions[sid] as real))
  }

  lemma WorthMoves(positions: Positions, past: Marks, now: Marks)
    requires positions.Keys <= past.Keys && positions.Keys <= now.Keys
    ensures Worth(positions, now) == Worth(positions, past) + PriceMove(positions, past, now)
  {
    var a := map sid | sid in positions && sid in past :: Times(past[sid], positions[sid] as real);
    var b := map sid | sid in positions && sid in past && sid in now :: Times(now[sid] - past[sid], positions[sid] as real);
    var c := map sid | sid in positions && sid in now :: Times(now[sid], positions[sid] as real);
    forall sid | sid in a
      ensures c[sid] == a[sid] + b[sid]
    {
      ProductMoves(past[sid], now[sid], positions[sid] as real);
    }
    hide Times;
    Sums.TotalAdds(a, b, c);
  }

  lemma ProductMoves(past: real, now: real, q: real)
    ensures Times(now, q) == Times(past, q) + Times(now - past, q)
  {
  }

  lemma MarkedCovers(m: Market, positions: Positions, day: Date, marks: Marks)
    requires AllMarked(m, positions, day) && DayMarks(m, day, marks)
    ensures positions.Keys <= marks.Keys
  {
    forall sid | sid in positions
      ensures sid in marks
    {
      assert LastPrint(m, sid, day).Some?;
    }
  }

  /** One session: value moves by the price moves of what was held, by what the opening's actions and
      exits contribute, and down by the costs of its trades. */
  lemma SessionAttribution(m: Market, cfg: Config, strategy: Strategy, st: RunState, i: nat, past: Marks, now: Marks)
    requires i < |cfg.sessions| && NonNegativeStrategy(strategy) && Sound(st.book)
    requires AllMarked(m, st.book.positions, cfg.sessions[i]) && DayMarks(m, cfg.sessions[i], now)
    requires st.book.positions.Keys <= past.Keys
    ensures var open, r := OpenDay(m, st.book, cfg.sessions[i]), DayStep(m, cfg, strategy, st, i);
            && open.Success? && r.Success? && st.book.events <= open.value.events <= r.value.book.events
            && ValueOf(r.value.book, now)
               == ValueOf(st.book, past) + PriceMove(st.book.positions, past, now)
                  + Contributions(open.value.events[|st.book.events|..], now)
                  - CostTotal(r.value.book.events[|open.value.events|..])
  {
    var day := cfg.sessions[i];
    MarkedCovers(m, st.book.positions, day, now);
    WorthMoves(st.book.positions, past, now);
    OpenDayIsSafe(m, st.book, day);
    var open := OpenDay(m, st.book, day).value;
    NewEventsAccountForValue(st.book, open, now);
    DayStepIsSafe(m, cfg, strategy, st, i);
    SessionTrades(m, cfg, strategy, st, i, open, now);
    hide *;
  }

  /** After the opening a session's book changes by its rebalance only, and loses the costs of its trades. */
  lemma SessionTrades(m: Market, cfg: Config, strategy: Strategy, st: RunState, i: nat, open: Book, now: Marks)
    requires i < |cfg.sessions| && NonNegativeStrategy(strategy) && DayStep(m, cfg, strategy, st, i).Success?
    requires OpenDay(m, st.book, cfg.sessions[i]) == Success(open) && Sound(open)
    requires AllMarked(m, open.positions, cfg.sessions[i]) && NoneStale(m, open.positions, cfg.sessions[i])
    requires DayMarks(m, cfg.sessions[i], now)
    ensures var r := DayStep(m, cfg, strategy, st, i).value.book;
            && open.events <= r.events
            && ValueOf(r, now) == ValueOf(open, now) - CostTotal(r.events[|open.events|..])
  {
    hide OpenDay;
    hide Rebalance;
    hide ValueOf;
    var atOpen := st.(book := open);
    if cfg.sessions[i] in cfg.rebalanceDays {
      RebalanceRowAccounts(m, cfg, strategy, atOpen, i, now);
    } else {
      assert open.events[|open.events|..] == [];
    }
    hide ValueOn;
  }

  /** The value a run has reached, built up session by session from the initial cash. */
  ghost predicate AttributedStep(m: Market, cfg: Config, strategy: Strategy, n: nat, past: Marks, now: Marks)
    requires 0 < n <= |cfg.sessions|
  {
    var before, after := RunThrough(m, cfg, strategy, n - 1), RunThrough(m, cfg, strategy, n);
    && before.Success? && after.Success? && |before.value.daily| == n - 1 && |after.value.daily| == n
    && DayMarks(m, cfg.sessions[n - 1], now)
    && var open := OpenDay(m, before.value.book, cfg.sessions[n - 1]);
    && open.Success? && before.value.book.events <= open.value.events <= after.value.book.events
    && after.value.daily[n - 1].value
       == (if n == 1 then cfg.initialCash else before.value.daily[n - 2].value)
          + PriceMove(before.value.book.positions, past, now)
          + Contributions(open.value.events[|before.value.book.events|..], now)
          - CostTotal(after.value.book.events[|open.value.events|..])
  }

  /** Every daily value a run records is the one before it, or the initial cash, plus what prices moved
      on the holdings, plus what the session's actions and exits contributed, less its trading costs:
      nothing else ever enters or leaves. */
  lemma EveryDayIsAttributed(m: Market, cfg: Config, strategy: Strategy, n: nat) returns (past: Marks, now: Marks)
    requires NonNegativeStrategy(strategy) && Increasing(cfg.sessions) && 0 < n <= |cfg.sessions|
    ensures n > 1 ==> DayMarks(m, cfg.sessions[n - 2], past)
    ensures AttributedStep(m, cfg, strategy, n, past, now)
  {
    hide RunThrough;
    hide DayStep;
    hide OpenDay;
    hide PriceMove;
    hide Contributions;
    hide CostTotal;
    hide DayMarks;
    hide ValueOf;
    hide ValueOn;
    hide AllMarked;
    hide NoneStale;
    hide Sound;
    hide Solvent;
    var day := cfg.sessions[n - 1];
    EveryRunIsSafe(m, cfg, strategy, n - 1);
    EveryRunIsSafe(m, cfg, strategy, n);
    var st := RunThrough(m, cfg, strategy, n - 1).value;
    now := PrintedMarks(m, day);
    past := map[];
    if n > 1 {
      past := PrintedMarks(m, cfg.sessions[n - 2]);
      MarkedCovers(m, st.book.positions, cfg.sessions[n - 2], past);
      AllMarkedLater(m, st.book.positions, cfg.sessions[n - 2], day);
      ValueOnMarked(m, st.book, cfg.sessions[n - 2], past);
    } else {
      NothingToMark(m, day);
      StartsWithCash(m, cfg, strategy, past);
    }
    SessionAttribution(m, cfg, strategy, st, n - 1, past, now);
    ValueOnMarked(m, RunThrough(m, cfg, strategy, n).value.book, day, now);
    RunSteps(m, cfg, strategy, n);
  }

  lemma RunSteps(m: Market, cfg: Config, strategy: Strategy, n: nat)
    requires 0 < n <= |cfg.sessions| && RunThrough(m, cfg, strategy, n - 1).Success?
    ensures RunThrough(m, cfg, strategy, n) == DayStep(m, cfg, strategy, RunThrough(m, cfg, strategy, n - 1).value, n - 1)
  {
    hide DayStep;
  }

  lemma StartsWithCash(m: Market, cfg: Config, strategy: Strategy, marks: Marks)
    requires RunThrough(m, cfg, strategy, 0).Success?
    ensures ValueOf(RunThrough(m, cfg, strategy, 0).value.book, marks) == cfg.initialCash
  {
    NothingHeld(map[], marks);
  }

  // ----- traded value and turnover

  /** What the events' purchases, or sales, are worth at their prices. */
  function WorthOf(events: seq<LedgerEvent>, kind: EventKind): real {
    if events == [] then 0.0
    else
      (if events[0].kind == kind && events[0].price.Some?
       then Times(events[0].price.value, Magnitude(events[0]) as real) else 0.0) + WorthOf(events[1..], kind)
  }

  function Magnitude(e: LedgerEvent): nat {
    if e.quantityDelta < 0 then -e.quantityDelta else e.quantityDelta
  }

  function CashMoved(events: seq<LedgerEvent>): real {
    if events == [] then 0.0 else events[0].cashDelta + CashMoved(events[1..])
  }

  lemma TradeParts(m: Market, cfg: Costs.CostConfig, e: LedgerEvent, day: Date)
    requires OnlyChargedTrades(m, cfg, [e], day)
    ensures e.price.Some? && (e.kind == BuyTrade || e.kind == SellTrade)
    ensures var worth := Times(e.price.value, Magnitude(e) as real);
            e.cashDelta == (if e.kind == BuyTrade then -worth else worth) - e.costs
  {
    assert e in [e];
    hide Times;
  }

  lemma OneMoreTrade(e: LedgerEvent, rest: seq<LedgerEvent>)
    requires e.price.Some? && (e.kind == BuyTrade || e.kind == SellTrade)
    ensures var events, worth := [e] + rest, Times(e.price.value, Magnitude(e) as real);
            && TradedTotal(events) == worth + TradedTotal(rest) && CostTotal(events) == e.costs + CostTotal(rest)
            && CashMoved(events) == e.cashDelta + CashMoved(rest)
            && WorthOf(events, BuyTrade) == (if e.kind == BuyTrade then worth else 0.0) + WorthOf(rest, BuyTrade)
            && WorthOf(events, SellTrade) == (if e.kind == SellTrade then worth else 0.0) + WorthOf(rest, SellTrade)
  {
    hide Times;
    assert ([e] + rest)[1..] == rest;
  }

  /** Purchases and sales together are the traded value; sales less purchases and costs are the cash. */
  lemma {:induction false} TradedSplits(m: Market, cfg: Costs.CostConfig, events: seq<LedgerEvent>, day: Date)
    requires OnlyChargedTrades(m, cfg, events, day)
    ensures TradedTotal(events) == WorthOf(events, BuyTrade) + WorthOf(events, SellTrade)
    ensures CashMoved(events) == WorthOf(events, SellTrade) - WorthOf(events, BuyTrade) - CostTotal(events)
  {
    if events != [] {
      OnlyTradesParts(m, cfg, events, day);
      TradeParts(m, cfg, events[0], day);
      TradedSplits(m, cfg, events[1..], day);
      OneMoreTrade(events[0], events[1..]);
      assert [events[0]] + events[1..] == events;
      hide *;
    }
  }

  lemma OnlyTradesParts(m: Market, cfg: Costs.CostConfig, events: seq<LedgerEvent>, day: Date)
    requires events != [] && OnlyChargedTrades(m, cfg, events, day)
    ensures OnlyChargedTrades(m, cfg, [events[0]], day) && OnlyChargedTrades(m, cfg, events[1..], day)
  {
  }

  lemma {:induction false} ReplayedCash(a: seq<LedgerEvent>, b: seq<LedgerEvent>)
    ensures Replay(a + b).0 == Replay(a).0 + CashMoved(b)
    decreases |b|
  {
    if b == [] {
      assert a + b == a;
    } else {
      assert a + b == (a + [b[0]]) + b[1..];
      assert (a + [b[0]])[..|a|] == a;
      ReplayedCash(a + [b[0]], b[1..]);
    }
  }

  lemma RowRecorded(m: Market, cfg: Config, strategy: Strategy, st: RunState, i: nat, value: real, after: Book)
    requires i < |cfg.sessions| && ValueOn(m, st.book, cfg.sessions[i]) == Success(value)
    requires Execute(m, cfg.costs, st.book, strategy(m, DecisionClock(cfg, i), st.book.positions, value), cfg.sessions[i]) == Success(after)
    requires st.book.events <= after.events && TradesIn(after.events[|st.book.events|..]) == after.events[|st.book.events|..]
    ensures var r, traded := Rebalance(m, cfg, strategy, st, i), after.events[|st.book.events|..];
            && r.Success? && r.value.book == after && |r.value.rebalances| == |st.rebalances| + 1
            && var row := r.value.rebalances[|st.rebalances|];
            && row.tradedValue == TradedTotal(traded) && row.costs == CostTotal(traded)
            && row.turnover == if value <= 0.0 then 0.0 else row.tradedValue / 2.0 / value
  {
    hide Execute;
    hide ValueOn;
    hide TradesIn;
    hide TradedTotal;
    hide CostTotal;
  }

  lemma CashAfterTrades(m: Market, cfg: Costs.CostConfig, b: Book, after: Book, day: Date)
    requires Sound(b) && Sound(after) && b.events <= after.events
    requires OnlyChargedTrades(m, cfg, after.events[|b.events|..], day)
    ensures var traded := after.events[|b.events|..];
            && TradedTotal(traded) == WorthOf(traded, BuyTrade) + WorthOf(traded, SellTrade)
            && after.cash == b.cash + WorthOf(traded, SellTrade) - WorthOf(traded, BuyTrade) - CostTotal(traded)
  {
    var traded := after.events[|b.events|..];
    TradedSplits(m, cfg, traded, day);
    assert after.events == b.events + traded;
    ReplayedCash(b.events, traded);
    hide OnlyChargedTrades;
    hide TradedTotal;
    hide WorthOf;
    hide CashMoved;
    hide CostTotal;
  }

  /** The row's traded value is what was bought plus what was sold, and turnover is half of it over the
      value before trading, or nothing without value; the rebalance moves cash by what was sold less
      what was bought less the row's costs. */
  lemma RowReconcilesWithCash(m: Market, cfg: Config, strategy: Strategy, st: RunState, i: nat, marks: Marks)
    requires i < |cfg.sessions| && NonNegativeStrategy(strategy) && Sound(st.book)
    requires AllMarked(m, st.book.positions, cfg.sessions[i]) && NoneStale(m, st.book.positions, cfg.sessions[i])
    requires DayMarks(m, cfg.sessions[i], marks)
    ensures var r := Rebalance(m, cfg, strategy, st, i);
            && r.Success? && |r.value.rebalances| == |st.rebalances| + 1 && st.book.events <= r.value.book.events
            && var row, traded := r.value.rebalances[|st.rebalances|], r.value.book.events[|st.book.events|..];
            && row.tradedValue == WorthOf(traded, BuyTrade) + WorthOf(traded, SellTrade)
            && row.turnover == (if ValueOf(st.book, marks) <= 0.0 then 0.0 else row.tradedValue / 2.0 / ValueOf(st.book, marks))
            && r.value.book.cash == st.book.cash + WorthOf(traded, SellTrade) - WorthOf(traded, BuyTrade) - row.costs
  {
    var day := cfg.sessions[i];
    ValueOnMarked(m, st.book, day, marks);
    var value := ValueOn(m, st.book, day).value;
    var targets := strategy(m, DecisionClock(cfg, i), st.book.positions, value);
    assert NonNegativeTargets(targets);
    RebalanceConservesValue(m, cfg.costs, st.book, targets, day, marks);
    hide *;
    var after := Execute(m, cfg.costs, st.book, targets, day).value;
    AllTrades(m, cfg.costs, after.events[|st.book.events|..], day);
    RowRecorded(m, cfg, strategy, st, i, value, after);
    CashAfterTrades(m, cfg.costs, st.book, after, day);
  }
}
