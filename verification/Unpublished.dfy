/** When an action nobody knows yet leaves a whole run unchanged. */
module Unpublished {
  import opened Domain
  import opened Markets
  import opened Context
  import opened Engine
  import opened EngineSafety
  import NoLookAhead
  import Slicing
  import Sorting

  /** What factor computation at a clock works from, for the securities asked about. */
  function KnownSliced(m: Market, clock: Date, sids: set<SecurityId>): Inputs {
    var ids := Sorting.Ascending(sids);
    KnownInputs(BarsFor(m.bars, ids, clock - FACTOR_LOOKBACK_DAYS, clock), ActionsFor(m.actions, ids), EndOfDay(clock))
  }

  /** Everything a context bound to `clock` computes from what is published by then is alike. */
  ghost predicate SameKnownView(m1: Market, m2: Market, clock: Date) {
    && (forall sid :: Price(m1, clock, sid) == Price(m2, clock, sid))
    && (forall sids :: KnownSliced(m1, clock, sids) == KnownSliced(m2, clock, sids))
  }

  /** The strategy reads the dataset only through prices and computations from published actions. */
  ghost predicate KnownBound(strategy: Strategy) {
    forall m1, m2, clock, positions, value ::
      SameKnownView(m1, m2, clock) ==> strategy(m1, clock, positions, value) == strategy(m2, clock, positions, value)
  }

  lemma SameViewSameKnown(m1: Market, m2: Market, clock: Date)
    requires SameView(m1, m2, clock)
    ensures SameKnownView(m1, m2, clock)
  {
    forall sids
      ensures KnownSliced(m1, clock, sids) == KnownSliced(m2, clock, sids)
    {
      assert SlicedInputs(m1, clock, sids) == SlicedInputs(m2, clock, sids);
    }
  }

  /** Such a strategy is clock-bound, so no data dated after the horizon reaches its run either. */
  lemma KnownBoundIsClockBound(strategy: Strategy)
    requires KnownBound(strategy)
    ensures NoLookAhead.ClockBound(strategy)
  {
    forall m1, m2, clock, positions, value | SameView(m1, m2, clock)
      ensures strategy(m1, clock, positions, value) == strategy(m2, clock, positions, value)
    {
      SameViewSameKnown(m1, m2, clock);
    }
  }

  // ----- one more action in the dataset

  /** The security's bars in the lookback window leave the action without a close to anchor it. */
  predicate Unanchored(m: Market, clock: Date, a: Action) {
    Place(Dates(Slicing.WindowOf(m.bars, a.sid, clock - FACTOR_LOOKBACK_DAYS, clock)), a.exDate).Unanchorable?
  }

  /** Of its security's actions only this one is unanchored. */
  ghost predicate SoleUnanchored(m: Market, clock: Date, late: Action) {
    Unanchored(m, clock, late) && forall a :: a in m.actions && a.sid == late.sid ==> !Unanchored(m, clock, a)
  }

  lemma {:induction false} ActionsOfInserted(pre: seq<Action>, late: Action, post: seq<Action>, sid: SecurityId) returns (p: seq<Action>, q: seq<Action>)
    ensures ActionsOf(pre + post, sid) == p + q
    ensures ActionsOf(pre + [late] + post, sid) == if sid == late.sid then p + [late] + q else p + q
  {
    Sorting.TailAround(pre, late, post);
    if pre == [] {
      p, q := [], ActionsOf(post, sid);
      Sorting.TailAround([], late, q);
    } else {
      p, q := ActionsOfInserted(pre[1..], late, post, sid);
      if pre[0].sid == sid {
        Sorting.ConsAround(pre[0], p, late, q);
        p := [pre[0]] + p;
      }
    }
  }

  ghost predicate NoRepeats(ids: seq<SecurityId>) {
    forall i, j :: 0 <= i < j < |ids| ==> ids[i] != ids[j]
  }

  /** The added action comes up once among the candidates, if its security is asked about. */
  lemma {:induction false} ActionsForInserted(pre: seq<Action>, late: Action, post: seq<Action>, ids: seq<SecurityId>)
    returns (p: seq<Action>, q: seq<Action>)
    requires NoRepeats(ids)
    ensures ActionsFor(pre + post, ids) == p + q
    ensures ActionsFor(pre + [late] + post, ids) == if late.sid in ids then p + [late] + q else p + q
  {
    if ids == [] {
      p, q := [], [];
    } else {
      var a, b := ActionsOfInserted(pre, late, post, ids[0]);
      p, q := ActionsForInserted(pre, late, post, ids[1..]);
      HeadOrTail(ids, late.sid);
      hide ActionsOf;
      hide NoRepeats;
      FourAround(a, b, p, q, late);
      if ids[0] == late.sid {
        p, q := a, b + p + q;
      } else {
        p := a + b + p;
      }
    }
  }

  lemma HeadOrTail(ids: seq<SecurityId>, sid: SecurityId)
    requires ids != [] && NoRepeats(ids)
    ensures sid in ids <==> sid == ids[0] || sid in ids[1..]
    ensures ids[0] !in ids[1..] && NoRepeats(ids[1..])
  {
  }

  lemma FourAround(a: seq<Action>, b: seq<Action>, p: seq<Action>, q: seq<Action>, late: Action)
    ensures (a + [late] + b) + (p + q) == a + [late] + (b + p + q) && (a + b) + (p + q) == a + (b + p + q)
    ensures (a + b) + (p + [late] + q) == (a + b + p) + [late] + q && (a + b) + (p + q) == (a + b + p) + q
  {
  }

  lemma {:induction false} InActionsFor(actions: seq<Action>, ids: seq<SecurityId>, a: Action)
    ensures a in ActionsFor(actions, ids) <==> a in actions && a.sid in ids
  {
    if ids != [] {
      InActionsFor(actions, ids[1..], a);
      Slicing.InActionsOf(actions, ids[0]);
      assert a.sid in ids <==> a.sid == ids[0] || a.sid in ids[1..];
    }
  }

  /** Among the securities asked about, an action is placed by its own security's window alone. */
  lemma PlacedByOwnWindow(m: Market, clock: Date, sids: set<SecurityId>, a: Action)
    requires a.sid in sids
    ensures PlaceIn(BarsFor(m.bars, Sorting.Ascending(sids), clock - FACTOR_LOOKBACK_DAYS, clock), a).Unanchorable? <==> Unanchored(m, clock, a)
  {
    Sorting.AscendingProperties(sids);
    Slicing.GatheredBars(m.bars, Sorting.Ascending(sids), a.sid, clock - FACTOR_LOOKBACK_DAYS, clock);
  }

  lemma SuspendedByOwnActions(m: Market, clock: Date, sids: set<SecurityId>, sid: SecurityId)
    requires sid in sids
    ensures var ids := Sorting.Ascending(sids);
            sid in Suspended(BarsFor(m.bars, ids, clock - FACTOR_LOOKBACK_DAYS, clock), ActionsFor(m.actions, ids))
            <==> exists a :: a in m.actions && a.sid == sid && Unanchored(m, clock, a)
  {
    var ids := Sorting.Ascending(sids);
    var bars := BarsFor(m.bars, ids, clock - FACTOR_LOOKBACK_DAYS, clock);
    Sorting.AscendingProperties(sids);
    hide Unanchored;
    hide PlaceIn;
    forall a: Action | a.sid == sid
      ensures a in ActionsFor(m.actions, ids) <==> a in m.actions
      ensures PlaceIn(bars, a).Unanchorable? <==> Unanchored(m, clock, a)
    {
      InActionsFor(m.actions, ids, a);
      PlacedByOwnWindow(m, clock, sids, a);
    }
  }

  function With(bars: seq<Bar>, pre: seq<Action>, late: Action, post: seq<Action>): Market {
    Market(bars, pre + [late] + post)
  }

  lemma OneQuestion(bars: seq<Bar>, pre: seq<Action>, late: Action, post: seq<Action>, clock: Date, sids: set<SecurityId>)
    requires late.availableAt > EndOfDay(clock)
    ensures KnownSliced(With(bars, pre, late, post), clock, sids) == KnownSliced(Market(bars, pre + post), clock, sids)
            <==> late.sid !in sids || !SoleUnanchored(Market(bars, pre + post), clock, late)
  {
    var m := Market(bars, pre + post);
    var ids := Sorting.Ascending(sids);
    Sorting.AscendingProperties(sids);
    var p, q := ActionsForInserted(pre, late, post, ids);
    if late.sid in sids {
      var window := BarsFor(bars, ids, clock - FACTOR_LOOKBACK_DAYS, clock);
      UnpublishedInvisibleExactlyWhen(window, p, late, q, EndOfDay(clock));
      PlacedByOwnWindow(m, clock, sids, late);
      SuspendedByOwnActions(m, clock, sids, late.sid);
      hide KnownInputs;
      hide PlaceIn;
      hide Suspended;
      hide Unanchored;
    }
  }

  /** A context bound to a clock before the action is published cannot tell whether the dataset holds it
      exactly when it is not the only unanchored action of its security. */
  lemma UnseenAtClockExactlyWhen(bars: seq<Bar>, pre: seq<Action>, late: Action, post: seq<Action>, clock: Date)
    requires late.availableAt > EndOfDay(clock)
    ensures SameKnownView(With(bars, pre, late, post), Market(bars, pre + post), clock)
            <==> !SoleUnanchored(Market(bars, pre + post), clock, late)
  {
    hide KnownSliced;
    hide SoleUnanchored;
    var m1, m2 := With(bars, pre, late, post), Market(bars, pre + post);
    forall sids
      ensures KnownSliced(m1, clock, sids) == KnownSliced(m2, clock, sids) <==> late.sid !in sids || !SoleUnanchored(m2, clock, late)
    {
      OneQuestion(bars, pre, late, post, clock, sids);
    }
    if SameKnownView(m1, m2, clock) {
      assert KnownSliced(m1, clock, {late.sid}) == KnownSliced(m2, clock, {late.sid});
    }
    forall sid
      ensures Price(m1, clock, sid) == Price(m2, clock, sid)
    {
    }
  }

  /** An action published after a horizon leaves the run of every strategy that computes from published
      actions the same through it, as long as at no rebalance clock it is the only unanchored action of
      its security. */
  lemma {:induction false} UnpublishedLeavesRunsAlike(bars: seq<Bar>, pre: seq<Action>, late: Action, post: seq<Action>, cfg: Config,
                                                      strategy: Strategy, n: nat)
    requires KnownBound(strategy) && Increasing(cfg.sessions) && n <= |cfg.sessions|
    requires n > 0 ==> cfg.prior < cfg.sessions[0] && cfg.sessions[n - 1] < DayOf(late.availableAt)
    requires forall i :: 0 <= i < n && cfg.sessions[i] in cfg.rebalanceDays ==>
                           !SoleUnanchored(Market(bars, pre + post), DecisionClock(cfg, i), late)
    ensures RunThrough(With(bars, pre, late, post), cfg, strategy, n) == RunThrough(Market(bars, pre + post), cfg, strategy, n)
    decreases n
  {
    var m1, m2 := With(bars, pre, late, post), Market(bars, pre + post);
    if n == 0 {
      NoLookAhead.RunStartsAlike(m1, m2, cfg, strategy);
    } else {
      var day := cfg.sessions[n - 1];
      NoLookAhead.HorizonCovers(cfg, day, n);
      assert n > 1 ==> cfg.sessions[n - 2] < day;
      assert Effective(late) != day;
      NoLookAhead.EffectiveOnWithout(pre, late, post, day);
      PublishedLater(late, DecisionClock(cfg, n - 1), day);
      if day in cfg.rebalanceDays {
        UnseenAtClockExactlyWhen(bars, pre, late, post, DecisionClock(cfg, n - 1));
        TargetsAlike(strategy, m1, m2, DecisionClock(cfg, n - 1));
      }
      NoLookAhead.SameBarsSameQuotes(m1, m2, day);
      hide *;
      UnpublishedLeavesRunsAlike(bars, pre, late, post, cfg, strategy, n - 1);
      NoLookAhead.RunStepsTo(m1, cfg, strategy, n);
      NoLookAhead.RunStepsTo(m2, cfg, strategy, n);
      var st := RunThrough(m2, cfg, strategy, n - 1);
      if st.Success? {
        NoLookAhead.DayStepAlike(m1, m2, cfg, strategy, st.value, n - 1);
      }
    }
  }

  lemma PublishedLater(late: Action, clock: Date, day: Date)
    requires clock < day < DayOf(late.availableAt)
    ensures late.availableAt > EndOfDay(clock)
  {
  }

  lemma TargetsAlike(strategy: Strategy, m1: Market, m2: Market, clock: Date)
    requires KnownBound(strategy) && SameKnownView(m1, m2, clock)
    ensures NoLookAhead.SameTargets(strategy, m1, m2, clock)
  {
  }
}
