/** The engine object: the session loop over a mutable portfolio, proved against `RunThrough`.

    Each method of the object is proved to do what the function of the same step says. */
module EngineLoop {
  import opened Domain
  import opened Markets
  import opened Ledger
  import opened Engine
  import Trading
  import Sorting

  lemma {:induction false} EffectiveOnAppend(actions: seq<Action>, a: Action, day: Date)
    ensures EffectiveOn(actions + [a], day) == EffectiveOn(actions, day) + (if Effective(a) == day then [a] else [])
  {
    if actions == [] {
      assert actions + [a] == [a];
    } else {
      assert (actions + [a])[1..] == actions[1..] + [a];
      EffectiveOnAppend(actions[1..], a, day);
    }
  }

  class BacktestEngine {
    const market: Market
    const cfg: Config
    var actionsByEffective: map<Date, seq<Action>>

    ghost predicate Indexed()
      reads this
    {
      forall day :: EffectiveOn(market.actions, day) == if day in actionsByEffective then actionsByEffective[day] else []
    }

    /** Indexes every action once, by the day it takes effect. */
    constructor (market: Market, cfg: Config)
      ensures this.market == market && this.cfg == cfg && Indexed()
    {
      this.market, this.cfg := market, cfg;
      actionsByEffective := map[];
      new;
      for i := 0 to |market.actions|
        invariant this.market == market && this.cfg == cfg
        invariant forall day :: EffectiveOn(market.actions[..i], day)
                             == if day in actionsByEffective then actionsByEffective[day] else []
      {
        var a := market.actions[i];
        var day := Effective(a);
        assert market.actions[..i + 1] == market.actions[..i] + [a];
        ghost var before := actionsByEffective;
        actionsByEffective := actionsByEffective[day := (if day in actionsByEffective then actionsByEffective[day] else []) + [a]];
        forall d
          ensures EffectiveOn(market.actions[..i + 1], d) == if d in actionsByEffective then actionsByEffective[d] else []
        {
          EffectiveOnAppend(market.actions[..i], a, d);
          assert EffectiveOn(market.actions[..i], d) == if d in before then before[d] else [];
        }
      }
      assert market.actions[..|market.actions|] == market.actions;
    }

    method ApplyOne(portfolio: Portfolio, a: Action, day: Date) returns (r: Outcome<LedgerError>)
      modifies portfolio
      ensures Refines(r, portfolio.View(), ApplyAction(market, old(portfolio.View()), a, day))
    {
      match a
      case Split(sid, _, _, newShares, oldShares) =>
        var mark := LastClose(market, sid, day);
        if mark.Some? && Quantity(portfolio.positions, sid) > 0 {
          r := portfolio.Split(sid, newShares, oldShares, mark.value, day);
        } else {
          r := Pass;
        }
      case Dividend(sid, _, _, amount, currency) =>
        var perShare := ToQuoteUnit(amount, currency);
        if perShare.Some? {
          r := portfolio.Credit(sid, perShare.value, day);
        } else {
          r := Pass;
        }
      case Merger(sid, _, _, cash, currency) =>
        if cash.Some? {
          r := portfolio.Resolve(sid, ToQuoteUnit(cash.value, currency), day);
        } else {
          r := Pass;
        }
      case DelistingAction(sid, _, _, reason) =>
        r := portfolio.Resolve(sid, DelistingCash(market, sid, reason, day), day);
      case RightsIssue(_, _, _) =>
        r := Pass;
      case TickerChangeAction(_, _, _) =>
        r := Pass;
    }

    method ApplyKnowable(portfolio: Portfolio, day: Date) returns (r: Outcome<LedgerError>)
      requires Indexed()
      modifies portfolio
      ensures Refines(r, portfolio.View(), ApplyActions(market, old(portfolio.View()), EffectiveOn(market.actions, day), day))
    {
      var actions := if day in actionsByEffective then actionsByEffective[day] else [];
      assert actions == EffectiveOn(market.actions, day);
      ghost var spec := ApplyActions(market, portfolio.View(), actions, day);
      for i := 0 to |actions|
        invariant ApplyActions(market, portfolio.View(), actions[i..], day) == spec
      {
        hide ApplyAction;
        assert actions[i..][1..] == actions[i + 1..];
        r := ApplyOne(portfolio, actions[i], day);
        if r.Fail? {
          return;
        }
      }
      return Pass;
    }

    method ForceExitStale(portfolio: Portfolio, day: Date) returns (r: Outcome<LedgerError>)
      modifies portfolio
      ensures Refines(r, portfolio.View(), ExitStale(market, old(portfolio.View()), HeldIds(old(portfolio.View())), day))
    {
      var ids := Sorting.Ascending(portfolio.positions.Keys);
      ghost var spec := ExitStale(market, portfolio.View(), ids, day);
      for i := 0 to |ids|
        invariant ExitStale(market, portfolio.View(), ids[i..], day) == spec
      {
        assert ids[i..][1..] == ids[i + 1..];
        if Stale(market, ids[i], day) {
          r := portfolio.Resolve(ids[i], LastClose(market, ids[i], day), day);
          if r.Fail? {
            return;
          }
        }
      }
      return Pass;
    }

    method MarkedValue(portfolio: Portfolio, day: Date) returns (r: Result<real, LedgerError>)
      ensures r == ValueOn(market, portfolio.View(), day)
    {
      var marks := MarksOn(market, portfolio.positions, day);
      if marks.Failure? {
        return Failure(marks.error);
      }
      r := portfolio.Value(marks.value);
    }

    method RebalanceOn(portfolio: Portfolio, strategy: Strategy, i: nat, ghost daily: seq<DailyRow>, rebalances: seq<RebalanceRow>)
      returns (r: Result<seq<RebalanceRow>, LedgerError>)
      requires i < |cfg.sessions|
      modifies portfolio
      ensures Reports(r, portfolio.View(), daily,
                      Rebalance(market, cfg, strategy, RunState(old(portfolio.View()), daily, rebalances), i))
    {
      var day := cfg.sessions[i];
      var preTradeValue := MarkedValue(portfolio, day);
      if preTradeValue.Failure? {
        return Failure(preTradeValue.error);
      }
      var targets := strategy(market, DecisionClock(cfg, i), portfolio.positions, preTradeValue.value);
      var eventsBefore := |portfolio.events|;
      var executed := Trading.ExecuteTargets(market, cfg.costs, portfolio, targets, day);
      if executed.Fail? {
        return Failure(executed.error);
      }
      var trades := TradesIn(if eventsBefore <= |portfolio.events| then portfolio.events[eventsBefore..] else []);
      r := Success(rebalances + [RowFor(trades, preTradeValue.value, day)]);
    }

    method Close(portfolio: Portfolio, day: Date, daily: seq<DailyRow>, ghost rebalances: seq<RebalanceRow>)
      returns (r: Result<seq<DailyRow>, LedgerError>)
      ensures var spec := CloseDay(market, RunState(portfolio.View(), daily, rebalances), day);
              if r.Failure? then spec == Failure(r.error) else spec == Success(RunState(portfolio.View(), r.value, rebalances))
    {
      var value := MarkedValue(portfolio, day);
      if value.Failure? {
        return Failure(value.error);
      }
      var replayedCash, replayedPositions := ReplayLog(portfolio.events);
      if replayedCash != portfolio.cash || replayedPositions != portfolio.positions {
        return Failure(IdentityBroken);
      }
      r := Success(daily + [DailyRow(day, value.value, portfolio.cash, |portfolio.positions|)]);
    }

    /** One session: open, rebalance when scheduled, close. */
    method Session(portfolio: Portfolio, strategy: Strategy, i: nat, daily: seq<DailyRow>, rebalances: seq<RebalanceRow>)
      returns (r: Result<(seq<DailyRow>, seq<RebalanceRow>), LedgerError>)
      requires i < |cfg.sessions| && Indexed()
      requires portfolio as object != this
      modifies portfolio
      ensures var spec := DayStep(market, cfg, strategy, RunState(old(portfolio.View()), daily, rebalances), i);
              if r.Failure? then spec == Failure(r.error)
              else spec == Success(RunState(portfolio.View(), r.value.0, r.value.1))
    {
      hide ApplyActions;
      hide ExitStale;
      hide Rebalance;
      hide CloseDay;
      var day := cfg.sessions[i];
      var outcome := ApplyKnowable(portfolio, day);
      if outcome.Fail? {
        return Failure(outcome.error);
      }
      outcome := ForceExitStale(portfolio, day);
      if outcome.Fail? {
        return Failure(outcome.error);
      }
      var rows := rebalances;
      if day in cfg.rebalanceDays {
        var rebalanced := RebalanceOn(portfolio, strategy, i, daily, rebalances);
        if rebalanced.Failure? {
          return Failure(rebalanced.error);
        }
        rows := rebalanced.value;
      }
      var closed := Close(portfolio, day, daily, rows);
      if closed.Failure? {
        return Failure(closed.error);
      }
      r := Success((closed.value, rows));
    }

    /** The session loop. Whatever it raises, or the full record of the run, is what the
        specification gives after the last session. */
    method Run(strategy: Strategy) returns (r: Result<RunState, LedgerError>)
      requires Indexed()
      ensures r == RunThrough(market, cfg, strategy, |cfg.sessions|)
    {
      hide *;
      var portfolio := new Portfolio(cfg.initialCash, cfg.start);
      RunBegins(market, cfg, strategy, portfolio.View());
      var daily: seq<DailyRow> := [];
      var rebalances: seq<RebalanceRow> := [];
      for i := 0 to |cfg.sessions|
        invariant Indexed()
        invariant fresh(portfolio)
        invariant RunThrough(market, cfg, strategy, i) == Success(RunState(portfolio.View(), daily, rebalances))
      {
        RunContinues(market, cfg, strategy, i);
        var stepped := Session(portfolio, strategy, i, daily, rebalances);
        if stepped.Failure? {
          FailureIsFinal(market, cfg, strategy, i + 1, |cfg.sessions|);
          return Failure(stepped.error);
        }
        daily, rebalances := stepped.value.0, stepped.value.1;
      }
      r := Success(RunState(portfolio.View(), daily, rebalances));
    }
  }

  /** How a step that reports rebalance rows relates to its specification. */
  ghost predicate Reports(r: Result<seq<RebalanceRow>, LedgerError>, after: Book, daily: seq<DailyRow>,
                          spec: Result<RunState, LedgerError>) {
    if r.Failure? then spec == Failure(r.error) else spec == Success(RunState(after, daily, r.value))
  }

  lemma RunBegins(m: Market, cfg: Config, strategy: Strategy, b: Book)
    requires Opened(cfg.initialCash, cfg.start) == Success(b)
    ensures RunThrough(m, cfg, strategy, 0) == Success(RunState(b, [], []))
  {
  }

  lemma RunContinues(m: Market, cfg: Config, strategy: Strategy, i: nat)
    requires i < |cfg.sessions| && RunThrough(m, cfg, strategy, i).Success?
    ensures RunThrough(m, cfg, strategy, i + 1) == DayStep(m, cfg, strategy, RunThrough(m, cfg, strategy, i).value, i)
  {
  }

  /** A run that has raised stays raised. */
  lemma {:induction false} FailureIsFinal(m: Market, cfg: Config, strategy: Strategy, n: nat, later: nat)
    requires n <= later <= |cfg.sessions| && RunThrough(m, cfg, strategy, n).Failure?
    ensures RunThrough(m, cfg, strategy, later) == RunThrough(m, cfg, strategy, n)
    decreases later
  {
    if n < later {
      FailureIsFinal(m, cfg, strategy, n, later - 1);
    }
  }
}
