/** No result of a run depends on data dated after it. */
module NoLookAhead {
  import opened Domain
  import opened Markets
  import opened Costs
  import opened Ledger
  import opened Trading
  import opened Engine
  import Context
  import Affordable
  import EngineSafety
  import Sorting

  /** The strategy reads the dataset only through a context bound to the clock it is given. */
  ghost predicate ClockBound(strategy: Strategy) {
    forall m1, m2, clock, positions, value ::
      Context.SameView(m1, m2, clock) ==> strategy(m1, clock, positions, value) == strategy(m2, clock, positions, value)
  }

  /** The engine's own lookups on a day. */
  ghost predicate SameQuotes(m1: Market, m2: Market, day: Date) {
    && (forall sid :: LastPrint(m1, sid, day) == LastPrint(m2, sid, day))
    && (forall sid :: MedianTradedValue(m1, sid, day) == MedianTradedValue(m2, sid, day))
  }

  lemma AgreeSameQuotes(m1: Market, m2: Market, horizon: Date, day: Date)
    requires Agree(m1, m2, horizon) && day <= horizon
    ensures SameQuotes(m1, m2, day)
  {
    forall sid
      ensures LastPrint(m1, sid, day) == LastPrint(m2, sid, day)
      ensures MedianTradedValue(m1, sid, day) == MedianTradedValue(m2, sid, day)
    {
      LookupsAgree(m1, m2, horizon, sid, day);
    }
  }

  lemma {:induction false} ActionsAlike(m1: Market, m2: Market, b: Book, actions: seq<Action>, day: Date)
    requires SameQuotes(m1, m2, day)
    ensures ApplyActions(m1, b, actions, day) == ApplyActions(m2, b, actions, day)
    decreases |actions|
  {
    if actions != [] {
      ActionAlike(m1, m2, b, actions[0], day);
      hide ApplyAction;
      hide SameQuotes;
      var first := ApplyAction(m1, b, actions[0], day);
      if first.Success? {
        ActionsAlike(m1, m2, first.value, actions[1..], day);
      }
    }
  }

  lemma ActionAlike(m1: Market, m2: Market, b: Book, a: Action, day: Date)
    requires SameQuotes(m1, m2, day)
    ensures ApplyAction(m1, b, a, day) == ApplyAction(m2, b, a, day)
  {
    hide ApplySplit;
    hide CreditDividend;
    hide ResolveDelisting;
  }

  lemma {:induction false} StaleExitsAlike(m1: Market, m2: Market, b: Book, ids: seq<SecurityId>, day: Date)
    requires SameQuotes(m1, m2, day)
    ensures ExitStale(m1, b, ids, day) == ExitStale(m2, b, ids, day)
    decreases |ids|
  {
    if ids != [] {
      assert ExitIfStale(m1, b, ids[0], day) == ExitIfStale(m2, b, ids[0], day);
      var first := ExitIfStale(m1, b, ids[0], day);
      if first.Success? {
        StaleExitsAlike(m1, m2, first.value, ids[1..], day);
      }
    }
  }

  lemma QuotesAlike(m1: Market, m2: Market, sid: SecurityId, day: Date)
    requires SameQuotes(m1, m2, day)
    ensures SameDayClose(m1, sid, day) == SameDayClose(m2, sid, day)
    ensures MedianTradedValue(m1, sid, day) == MedianTradedValue(m2, sid, day)
  {
    hide LastPrint;
    hide MedianTradedValue;
  }

  lemma FillAlike(m1: Market, m2: Market, cfg: CostConfig, b: Book, sid: SecurityId, delta: int, day: Date)
    requires SameQuotes(m1, m2, day)
    ensures Fill(m1, cfg, b, sid, delta, day) == Fill(m2, cfg, b, sid, delta, day)
  {
    hide SameQuotes;
    hide SameDayClose;
    hide MedianTradedValue;
    hide Affordable.AffordableShares;
    hide Cost;
    hide SellShares;
    hide BuyShares;
    QuotesAlike(m1, m2, sid, day);
  }

  lemma {:induction false} FillsAlike(m1: Market, m2: Market, cfg: CostConfig, b: Book, start: Positions, targets: Positions,
                                      ids: seq<SecurityId>, day: Date)
    requires SameQuotes(m1, m2, day)
    ensures FillAll(m1, cfg, b, start, targets, ids, day) == FillAll(m2, cfg, b, start, targets, ids, day)
    decreases |ids|
  {
    if ids != [] {
      FillAlike(m1, m2, cfg, b, ids[0], Delta(start, targets, ids[0]), day);
      hide Fill;
      var first := Fill(m1, cfg, b, ids[0], Delta(start, targets, ids[0]), day);
      if first.Success? {
        FillsAlike(m1, m2, cfg, first.value, start, targets, ids[1..], day);
      }
    }
  }

  lemma SellNetAlike(m1: Market, m2: Market, cfg: CostConfig, sid: SecurityId, shares: int, day: Date)
    requires SameQuotes(m1, m2, day) && shares > 0
    ensures SellNet(m1, cfg, sid, shares, day) == SellNet(m2, cfg, sid, shares, day)
  {
    hide SameQuotes;
    hide SameDayClose;
    hide MedianTradedValue;
    hide Cost;
    QuotesAlike(m1, m2, sid, day);
  }

  lemma RankedAlike(m1: Market, m2: Market, cfg: CostConfig, positions: Positions, targets: Positions, ids: seq<SecurityId>, day: Date)
    requires SameQuotes(m1, m2, day) && forall sid :: sid in ids ==> Delta(positions, targets, sid) < 0
    ensures RankedSells(m1, cfg, positions, targets, ids, day) == RankedSells(m2, cfg, positions, targets, ids, day)
  {
    hide SameQuotes;
    hide SellNet;
    hide Delta;
    forall i | 0 <= i < |ids|
      ensures RankedSells(m1, cfg, positions, targets, ids, day)[i] == RankedSells(m2, cfg, positions, targets, ids, day)[i]
    {
      assert ids[i] in ids;
      SellNetAlike(m1, m2, cfg, ids[i], -Delta(positions, targets, ids[i]), day);
    }
  }

  lemma SellOrderAlike(m1: Market, m2: Market, cfg: CostConfig, positions: Positions, targets: Positions, day: Date)
    requires SameQuotes(m1, m2, day)
    ensures OrderedSells(m1, cfg, positions, targets, day) == OrderedSells(m2, cfg, positions, targets, day)
  {
    hide SameQuotes;
    hide RankedSells;
    hide Delta;
    var ids := Sorting.Ascending(SellIds(positions, targets));
    Sorting.AscendingProperties(SellIds(positions, targets));
    RankedAlike(m1, m2, cfg, positions, targets, ids, day);
  }

  lemma ExecuteAlike(m1: Market, m2: Market, cfg: CostConfig, b: Book, targets: Positions, day: Date)
    requires SameQuotes(m1, m2, day)
    ensures Execute(m1, cfg, b, targets, day) == Execute(m2, cfg, b, targets, day)
  {
    hide OrderedSells;
    hide OrderedBuys;
    SellOrderAlike(m1, m2, cfg, b.positions, targets, day);
    FillsAlike(m1, m2, cfg, b, b.positions, targets,
               OrderedSells(m1, cfg, b.positions, targets, day) + OrderedBuys(b.positions, targets), day);
  }

  lemma ValueAlike(m1: Market, m2: Market, b: Book, day: Date)
    requires SameQuotes(m1, m2, day)
    ensures ValueOn(m1, b, day) == ValueOn(m2, b, day)
  {
    MarksAlike(m1, m2, b.positions, day);
    hide MarksOn;
    hide SameQuotes;
  }

  lemma MarksAlike(m1: Market, m2: Market, positions: Positions, day: Date)
    requires SameQuotes(m1, m2, day)
    ensures MarksOn(m1, positions, day) == MarksOn(m2, positions, day)
  {
    hide LastPrint;
    hide MedianTradedValue;
    assert AllMarked(m1, positions, day) <==> AllMarked(m2, positions, day);
    if AllMarked(m1, positions, day) {
      assert MarksOn(m1, positions, day).value == MarksOn(m2, positions, day).value;
    }
  }

  lemma OpenDayAlike(m1: Market, m2: Market, b: Book, day: Date)
    requires SameQuotes(m1, m2, day) && EffectiveOn(m1.actions, day) == EffectiveOn(m2.actions, day)
    ensures OpenDay(m1, b, day) == OpenDay(m2, b, day)
  {
    var actions := EffectiveOn(m1.actions, day);
    ActionsAlike(m1, m2, b, actions, day);
    var next := ApplyActions(m1, b, actions, day);
    if next.Success? {
      StaleExitsAlike(m1, m2, next.value, HeldIds(next.value), day);
    }
  }

  /** The strategy asks for the same targets on both datasets, whatever it holds. */
  ghost predicate SameTargets(strategy: Strategy, m1: Market, m2: Market, clock: Date) {
    forall positions, value :: strategy(m1, clock, positions, value) == strategy(m2, clock, positions, value)
  }

  lemma RebalanceAlike(m1: Market, m2: Market, cfg: Config, strategy: Strategy, st: RunState, i: nat)
    requires i < |cfg.sessions| && SameQuotes(m1, m2, cfg.sessions[i])
    requires SameTargets(strategy, m1, m2, DecisionClock(cfg, i))
    ensures Rebalance(m1, cfg, strategy, st, i) == Rebalance(m2, cfg, strategy, st, i)
  {
    hide ValueOn;
    hide Execute;
    var day := cfg.sessions[i];
    ValueAlike(m1, m2, st.book, day);
    var value := ValueOn(m1, st.book, day);
    if value.Success? {
      var targets := strategy(m1, DecisionClock(cfg, i), st.book.positions, value.value);
      ExecuteAlike(m1, m2, cfg.costs, st.book, targets, day);
    }
  }

  lemma DayStepAlike(m1: Market, m2: Market, cfg: Config, strategy: Strategy, st: RunState, i: nat)
    requires i < |cfg.sessions| && SameQuotes(m1, m2, cfg.sessions[i])
    requires EffectiveOn(m1.actions, cfg.sessions[i]) == EffectiveOn(m2.actions, cfg.sessions[i])
    requires cfg.sessions[i] in cfg.rebalanceDays ==> SameTargets(strategy, m1, m2, DecisionClock(cfg, i))
    ensures DayStep(m1, cfg, strategy, st, i) == DayStep(m2, cfg, strategy, st, i)
  {
    hide OpenDay;
    hide Rebalance;
    hide ValueOn;
    var day := cfg.sessions[i];
    OpenDayAlike(m1, m2, st.book, day);
    var open := OpenDay(m1, st.book, day);
    if open.Success? {
      var atOpen := st.(book := open.value);
      if day in cfg.rebalanceDays {
        RebalanceAlike(m1, m2, cfg, strategy, atOpen, i);
      }
      var traded := if day in cfg.rebalanceDays then Rebalance(m1, cfg, strategy, atOpen, i) else Success(atOpen);
      if traded.Success? {
        ValueAlike(m1, m2, traded.value.book, day);
      }
    }
  }

  /** Sessions and their decision clocks lie within the horizon of the last session. */
  lemma HorizonCovers(cfg: Config, horizon: Date, n: nat)
    requires 0 < n <= |cfg.sessions| && EngineSafety.Increasing(cfg.sessions)
    requires cfg.sessions[n - 1] <= horizon && cfg.prior < cfg.sessions[0]
    ensures DecisionClock(cfg, n - 1) < cfg.sessions[n - 1]
    ensures n > 1 ==> cfg.sessions[n - 2] < cfg.sessions[n - 1]
  {
    assert n > 1 ==> cfg.sessions[n - 2] < cfg.sessions[n - 1];
    assert n == 1 ==> DecisionClock(cfg, n - 1) == cfg.prior;
  }

  lemma SameViewSameTargets(m1: Market, m2: Market, strategy: Strategy, clock: Date)
    requires ClockBound(strategy) && Context.SameView(m1, m2, clock)
    ensures SameTargets(strategy, m1, m2, clock)
  {
  }

  /** Let two datasets hold the same bars dated, and the same actions ex, on or before a horizon,
      and anything at all after it. Then every clock-bound strategy's run is the same on both
      through every session up to the horizon: the event log, the daily rows, the rebalance rows,
      and any error raised. */
  lemma {:induction false} RunsAlikeToHorizon(m1: Market, m2: Market, cfg: Config, strategy: Strategy, horizon: Date, n: nat)
    requires Agree(m1, m2, horizon) && ClockBound(strategy)
    requires n <= |cfg.sessions| && EngineSafety.Increasing(cfg.sessions)
    requires n > 0 ==> cfg.sessions[n - 1] <= horizon && cfg.prior < cfg.sessions[0]
    ensures RunThrough(m1, cfg, strategy, n) == RunThrough(m2, cfg, strategy, n)
    decreases n
  {
    hide *;
    if n == 0 {
      RunStartsAlike(m1, m2, cfg, strategy);
    } else {
      HorizonCovers(cfg, horizon, n);
      RunsAlikeToHorizon(m1, m2, cfg, strategy, horizon, n - 1);
      RunStepsTo(m1, cfg, strategy, n);
      RunStepsTo(m2, cfg, strategy, n);
      var st := RunThrough(m1, cfg, strategy, n - 1);
      if st.Success? {
        AgreeSameQuotes(m1, m2, horizon, cfg.sessions[n - 1]);
        EffectiveOnAgrees(m1, m2, cfg.sessions[n - 1], horizon);
        Context.AgreeingDataSameView(m1, m2, horizon, DecisionClock(cfg, n - 1));
        SameViewSameTargets(m1, m2, strategy, DecisionClock(cfg, n - 1));
        DayStepAlike(m1, m2, cfg, strategy, st.value, n - 1);
      }
    }
  }

  lemma {:induction false} EffectiveOnWithout(pre: seq<Action>, a: Action, post: seq<Action>, day: Date)
    requires Effective(a) != day
    ensures EffectiveOn(pre + [a] + post, day) == EffectiveOn(pre + post, day)
  {
    if pre == [] {
      assert [] + [a] + post == [a] + post && [] + post == post;
    } else {
      assert (pre + [a] + post)[1..] == pre[1..] + [a] + post;
      assert (pre + post)[1..] == pre[1..] + post;
      EffectiveOnWithout(pre[1..], a, post, day);
    }
  }

  ghost predicate SameEffects(m1: Market, m2: Market, cfg: Config) {
    forall i :: 0 <= i < |cfg.sessions| ==> EffectiveOn(m1.actions, cfg.sessions[i]) == EffectiveOn(m2.actions, cfg.sessions[i])
  }

  lemma SameBarsSameQuotes(m1: Market, m2: Market, day: Date)
    requires m1.bars == m2.bars
    ensures SameQuotes(m1, m2, day)
  {
  }

  lemma SameEffectsOn(m1: Market, m2: Market, cfg: Config, i: nat)
    requires SameEffects(m1, m2, cfg) && i < |cfg.sessions|
    ensures EffectiveOn(m1.actions, cfg.sessions[i]) == EffectiveOn(m2.actions, cfg.sessions[i])
  {
  }

  lemma RunStartsAlike(m1: Market, m2: Market, cfg: Config, strategy: Strategy)
    ensures RunThrough(m1, cfg, strategy, 0) == RunThrough(m2, cfg, strategy, 0)
  {
  }

  lemma RunStepsTo(m: Market, cfg: Config, strategy: Strategy, n: nat)
    requires 0 < n <= |cfg.sessions|
    ensures var before := RunThrough(m, cfg, strategy, n - 1);
            RunThrough(m, cfg, strategy, n) == if before.Failure? then before else DayStep(m, cfg, strategy, before.value, n - 1)
  {
    hide DayStep;
  }

  lemma {:induction false} RunsAlikeOnSessions(m1: Market, m2: Market, cfg: Config, strategy: Strategy, n: nat)
    requires n <= |cfg.sessions| && m1.bars == m2.bars && SameEffects(m1, m2, cfg)
    requires forall clock :: SameTargets(strategy, m1, m2, clock)
    ensures RunThrough(m1, cfg, strategy, n) == RunThrough(m2, cfg, strategy, n)
    decreases n
  {
    hide *;
    if n == 0 {
      RunStartsAlike(m1, m2, cfg, strategy);
    } else {
      RunsAlikeOnSessions(m1, m2, cfg, strategy, n - 1);
      RunStepsTo(m1, cfg, strategy, n);
      RunStepsTo(m2, cfg, strategy, n);
      var st := RunThrough(m1, cfg, strategy, n - 1);
      if st.Success? {
        SameBarsSameQuotes(m1, m2, cfg.sessions[n - 1]);
        SameEffectsOn(m1, m2, cfg, n - 1);
        DayStepAlike(m1, m2, cfg, strategy, st.value, n - 1);
      }
    }
  }

  /** An action is applied only on the day it takes effect. When that day is not a session the action
      is never applied, whether late or not: a run with it and a run without it are
      the same, except through what the strategy itself makes of it. */
  lemma OffSessionActionNeverApplies(bars: seq<Bar>, pre: seq<Action>, a: Action, post: seq<Action>, cfg: Config,
                                     strategy: Strategy, n: nat)
    requires n <= |cfg.sessions| && Effective(a) !in cfg.sessions
    requires forall clock :: SameTargets(strategy, Market(bars, pre + [a] + post), Market(bars, pre + post), clock)
    ensures RunThrough(Market(bars, pre + [a] + post), cfg, strategy, n) == RunThrough(Market(bars, pre + post), cfg, strategy, n)
  {
    var m1, m2 := Market(bars, pre + [a] + post), Market(bars, pre + post);
    forall i | 0 <= i < |cfg.sessions|
      ensures EffectiveOn(m1.actions, cfg.sessions[i]) == EffectiveOn(m2.actions, cfg.sessions[i])
    {
      EffectiveOnWithout(pre, a, post, cfg.sessions[i]);
    }
    RunsAlikeOnSessions(m1, m2, cfg, strategy, n);
  }

  /** The clock a session decides at is the last day of the run's calendar before it: the session
      before, or ahead of the first session the trading day before that. */
  lemma ClockIsPreviousSession(cfg: Config, i: nat)
    requires i < |cfg.sessions| && EngineSafety.Increasing(cfg.sessions) && cfg.prior < cfg.sessions[0]
    ensures var clock := DecisionClock(cfg, i);
            && clock < cfg.sessions[i] && (clock == cfg.prior || clock in cfg.sessions)
            && cfg.prior <= clock && forall j :: 0 <= j < |cfg.sessions| && cfg.sessions[j] < cfg.sessions[i] ==> cfg.sessions[j] <= clock
  {
    HorizonCovers(cfg, cfg.sessions[i], i + 1);
    forall j | 0 <= j < |cfg.sessions| && cfg.sessions[j] < cfg.sessions[i]
      ensures cfg.sessions[j] <= DecisionClock(cfg, i)
    {
      EarlierComesFirst(cfg.sessions, j, i);
      assert j < i - 1 ==> cfg.sessions[j] < cfg.sessions[i - 1];
    }
    assert i > 1 ==> cfg.sessions[0] < cfg.sessions[i - 1];
  }

  lemma EarlierComesFirst(sessions: seq<Date>, j: nat, i: nat)
    requires EngineSafety.Increasing(sessions) && i < |sessions| && j < |sessions| && sessions[j] < sessions[i]
    ensures j < i
  {
  }
}
