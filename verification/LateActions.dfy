/** Which knowable actions a run applies: those that take effect on one of its sessions.

    Actions are looked up by the day they take effect, and only session days are looked up. The last
    part follows one run through, with and without the action published in time. */
module LateActions {
  import opened Arithmetic
  import opened Domain
  import opened Markets
  import opened Costs
  import opened Ledger
  import opened Trading
  import opened Engine
  import opened EngineSafety
  import Affordable
  import NoLookAhead
  import Sorting

  // ----- every action, on every run

  lemma {:induction false} EffectiveOnExactly(actions: seq<Action>, a: Action, day: Date)
    ensures a in EffectiveOn(actions, day) <==> a in actions && Effective(a) == day
  {
    if actions != [] {
      EffectiveOnExactly(actions[1..], a, day);
      assert actions == [actions[0]] + actions[1..];
    }
  }

  /** The actions applied when session `i` opens include `a`. */
  ghost predicate Receives(m: Market, cfg: Config, i: int, a: Action) {
    0 <= i < |cfg.sessions| && a in EffectiveOn(m.actions, cfg.sessions[i])
  }

  /** An action reaches the ledger on some session exactly when the later of its ex-date and its
      publication day is a session, and then on that session alone. */
  lemma AppliedExactlyWhen(m: Market, cfg: Config, a: Action)
    requires Increasing(cfg.sessions) && a in m.actions
    ensures (exists i :: Receives(m, cfg, i, a)) <==> Effective(a) in cfg.sessions
    ensures forall i, j :: Receives(m, cfg, i, a) && Receives(m, cfg, j, a) ==> i == j
    ensures forall i :: Receives(m, cfg, i, a) ==> cfg.sessions[i] == Effective(a)
  {
    forall i | 0 <= i < |cfg.sessions|
      ensures Receives(m, cfg, i, a) <==> cfg.sessions[i] == Effective(a)
    {
      EffectiveOnExactly(m.actions, a, cfg.sessions[i]);
    }
    if Effective(a) in cfg.sessions {
      var i :| 0 <= i < |cfg.sessions| && cfg.sessions[i] == Effective(a);
      assert Receives(m, cfg, i, a);
    }
  }

  /** `a` took the book from `before` to `after` somewhere between `b` and `r`. */
  ghost predicate AppliedBetween(m: Market, b: Book, a: Action, day: Date, before: Book, after: Book, r: Book) {
    && ApplyAction(m, before, a, day) == Success(after) && Sound(before)
    && b.events <= before.events <= after.events <= r.events
  }

  /** Every action a session receives is applied to the book as the ones before it left it, and what it
      records stays in the log. */
  lemma {:induction false} ReceivedIsApplied(m: Market, b: Book, actions: seq<Action>, a: Action, day: Date) returns (before: Book, after: Book)
    requires Sound(b) && a in actions
    ensures ApplyActions(m, b, actions, day).Success?
    ensures AppliedBetween(m, b, a, day, before, after, ApplyActions(m, b, actions, day).value)
    decreases |actions|
  {
    ActionTrims(m, b, actions[0], day);
    var next := ApplyAction(m, b, actions[0], day).value;
    ActionsTrim(m, next, actions[1..], day);
    hide ApplyAction;
    hide Sound;
    if actions[0] == a {
      before, after := b, next;
    } else {
      assert a in actions[1..];
      before, after := ReceivedIsApplied(m, next, actions[1..], a, day);
    }
  }

  // ----- a run that never pays a dividend it knew about

  const FREE := CostConfig(0.0, 0.0, 0.0, 0.0, 0.0, (sid: SecurityId) => false)

  /** One share class at 1.0 on three sessions, and a dividend of 2.0 ex on the second. */
  function Paying(published: Instant): Market {
    Market([Bar(1, 0, 1.0, 0), Bar(1, 1, 1.0, 0), Bar(1, 5, 1.0, 0)], [Dividend(1, 1, published, 2.0, GBX)])
  }

  const THREE_SESSIONS := Config(FREE, 100.0, 0, [0, 1, 5], -1, {0})

  function HoldTen(): Strategy {
    (m, clock, positions, value) => map[1 := 10]
  }

  lemma PricesAreOne(published: Instant, day: Date)
    requires day in [0, 1, 5]
    ensures LastPrint(Paying(published), 1, day) == Some(Print(day, 1.0))
  {
    var m := Paying(published);
    LastPrintMeaning(m, 1, day);
    assert m.bars[0] in m.bars && m.bars[1] in m.bars && m.bars[2] in m.bars;
    assert PrintedBy(m.bars, 1, day, if day == 0 then m.bars[0] else if day == 1 then m.bars[1] else m.bars[2]);
    var b :| PrintedBy(m.bars, 1, day, b) && b.date == LastPrint(m, 1, day).value.date && b.close == LastPrint(m, 1, day).value.close;
  }

  lemma {:induction false} NoExits(m: Market, b: Book, ids: seq<SecurityId>, day: Date)
    requires forall sid :: sid in ids ==> !Stale(m, sid, day)
    ensures ExitStale(m, b, ids, day) == Success(b)
    decreases |ids|
  {
    if ids != [] {
      assert ids[0] in ids;
      NoExits(m, b, ids[1..], day);
    }
  }

  /** A session on which nothing takes effect and nothing is stale opens with the book it was left. */
  lemma QuietOpen(m: Market, b: Book, day: Date)
    requires EffectiveOn(m.actions, day) == [] && NoneStale(m, b.positions, day)
    ensures OpenDay(m, b, day) == Success(b)
  {
    Sorting.AscendingProperties(b.positions.Keys);
    NoExits(m, b, HeldIds(b), day);
  }

  function DepositedBook(): Book {
    Book(100.0, map[], [DepositEvent(100.0, 0)])
  }

  function BoughtBook(): Book {
    Book(90.0, map[1 := 10],
         [DepositEvent(100.0, 0), LedgerEvent(0, BuyTrade, Some(1), 10, -10.0, Some(1.0), 0.0)])
  }

  function PaidBook(): Book {
    Book(110.0, map[1 := 10], BoughtBook().events + [LedgerEvent(1, DividendCredit, Some(1), 0, 20.0, Some(2.0), 0.0)])
  }

  lemma TenAreBought(published: Instant)
    ensures Execute(Paying(published), FREE, DepositedBook(), map[1 := 10], 0) == Success(BoughtBook())
  {
    var m := Paying(published);
    OnlyOneOrder(m);
    TenAreFilled(published);
    var ids := [1];
    hide Fill;
    hide OrderedSells;
    hide OrderedBuys;
    assert [] + ids == ids && ids[1..] == [];
    assert Delta(map[], map[1 := 10], 1) == 10;
    assert FillAll(m, FREE, BoughtBook(), map[], map[1 := 10], [], 0) == Success(BoughtBook());
    assert FillAll(m, FREE, DepositedBook(), map[], map[1 := 10], ids, 0) == Success(BoughtBook());
  }

  lemma TenAreFilled(published: Instant)
    ensures Fill(Paying(published), FREE, DepositedBook(), 1, 10, 0) == Success(BoughtBook())
  {
    hide *;
    var m := Paying(published);
    PriceAtOpen(published);
    TenAfforded(MedianTradedValue(m, 1, 0));
    TenCostNothing(m);
    TenRecorded();
    BuyIsFilled(m, DepositedBook(), 1, 10, 0, 1.0);
  }

  lemma PriceAtOpen(published: Instant)
    ensures SameDayClose(Paying(published), 1, 0) == Some(1.0) && DepositedBook().cash == 100.0
  {
    PricesAreOne(published, 0);
  }

  /** A purchase that cash affords in full. */
  lemma BuyIsFilled(m: Market, b: Book, sid: SecurityId, shares: int, day: Date, price: Positive)
    requires shares > 0 && SameDayClose(m, sid, day) == Some(price)
    requires Affordable.AffordableShares(FREE, sid, price, MedianTradedValue(m, sid, day), b.cash, shares) == shares
    requires BuyCosts(m, FREE, sid, shares, price, day) == 0.0
    ensures Fill(m, FREE, b, sid, shares, day) == BuyShares(b, sid, shares, price, 0.0, day)
  {
    hide SameDayClose;
    hide MedianTradedValue;
    hide BuyCosts;
    hide BuyShares;
    hide Affordable.AffordableShares;
  }

  lemma AffordedInFull(cfg: CostConfig, sid: SecurityId, price: Positive, liquidity: Option<real>, cash: real, shares: int)
    requires shares > 0 && Affordable.Outlay(cfg, sid, price, liquidity, shares) <= cash
    ensures Affordable.AffordableShares(cfg, sid, price, liquidity, cash, shares) == shares
  {
    hide Affordable.Outlay;
  }

  lemma TenAfforded(liquidity: Option<real>)
    ensures Affordable.AffordableShares(FREE, 1, 1.0, liquidity, 100.0, 10) == 10
  {
    hide Affordable.AffordableShares;
    TenNotional();
    FreeCosts(Costs.Buy, Affordable.Notional(1.0, 10), liquidity);
    hide Cost;
    AffordedInFull(FREE, 1, 1.0, liquidity, 100.0, 10);
  }

  lemma TenCostNothing(m: Market)
    ensures BuyCosts(m, FREE, 1, 10, 1.0, 0) == 0.0
  {
    FreeCosts(Costs.Buy, Affordable.Notional(1.0, 10), MedianTradedValue(m, 1, 0));
    hide MedianTradedValue;
    hide Cost;
  }

  lemma TenRecorded()
    ensures BuyShares(DepositedBook(), 1, 10, 1.0, 0.0, 0) == Success(BoughtBook())
  {
    TenNotional();
    hide Times;
    var e := LedgerEvent(0, BuyTrade, Some(1), 10, -10.0, Some(1.0), 0.0);
    assert BuyShares(DepositedBook(), 1, 10, 1.0, 0.0, 0) == Record(DepositedBook(), e);
    assert Moved(map[], e) == map[1 := 10];
    assert DepositedBook().events + [e] == BoughtBook().events;
  }

  lemma TenNotional()
    ensures Affordable.Notional(1.0, 10) == 10.0 && Times(1.0, 10 as real) == 10.0
  {
  }

  lemma FreeCosts(side: Side, notional: Positive, liquidity: Option<real>)
    ensures Cost(FREE, 1, side, notional, liquidity).Total() == 0.0
  {
    assert 0.0 * BPS == 0.0 && 0.0 / 2.0 * BPS == 0.0;
    TimesUnits(notional);
    TimesUnits(Participation(notional, liquidity));
    hide Times;
    hide Participation;
  }

  lemma OnlyOneOrder(m: Market)
    ensures OrderedSells(m, FREE, map[], map[1 := 10], 0) == []
    ensures OrderedBuys(map[], map[1 := 10]) == [1]
  {
    var targets: Positions := map[1 := 10];
    assert SellIds(map[], targets) == {};
    assert BuyIds(map[], targets) == {1};
    var sells := Sorting.Ascending(SellIds(map[], targets));
    Sorting.AscendingProperties(SellIds(map[], targets));
    Sorting.AscendingProperties({1});
    var buys := Sorting.Ascending({1});
    assert |buys| == 1 && buys[0] in buys;
    assert sells == [];
    assert RankedSells(m, FREE, map[], targets, sells, 0) == [];
  }

  /** The book a session leaves. */
  lemma BookAfter(m: Market, cfg: Config, strategy: Strategy, st: RunState, i: nat, open: Book)
    requires i < |cfg.sessions| && DayStep(m, cfg, strategy, st, i).Success?
    requires OpenDay(m, st.book, cfg.sessions[i]) == Success(open)
    ensures var day, after := cfg.sessions[i], DayStep(m, cfg, strategy, st, i).value.book;
            && (day !in cfg.rebalanceDays ==> after == open)
            && (day in cfg.rebalanceDays ==>
                  && ValueOn(m, open, day).Success?
                  && Execute(m, cfg.costs, open, strategy(m, DecisionClock(cfg, i), open.positions, ValueOn(m, open, day).value), day)
                     == Success(after))
  {
    hide OpenDay;
    hide Execute;
    hide ValueOn;
  }

  function PaidIn(published: Instant): Date {
    Max(1, DayOf(published))
  }

  lemma PayingEffects(published: Instant, day: Date)
    ensures EffectiveOn(Paying(published).actions, day) == if day == PaidIn(published) then Paying(published).actions else []
  {
    var actions := Paying(published).actions;
    assert actions[1..] == [];
    assert EffectiveOn([], day) == [];
    assert actions == [actions[0]];
  }

  lemma RunsOn(published: Instant, n: nat)
    requires n <= 3
    ensures RunThrough(Paying(published), THREE_SESSIONS, HoldTen(), n).Success?
    ensures n > 0 ==> RunThrough(Paying(published), THREE_SESSIONS, HoldTen(), n)
                      == DayStep(Paying(published), THREE_SESSIONS, HoldTen(),
                                 RunThrough(Paying(published), THREE_SESSIONS, HoldTen(), n - 1).value, n - 1)
  {
    EveryRunIsSafe(Paying(published), THREE_SESSIONS, HoldTen(), n);
    if n > 0 {
      EveryRunIsSafe(Paying(published), THREE_SESSIONS, HoldTen(), n - 1);
      NoLookAhead.RunStepsTo(Paying(published), THREE_SESSIONS, HoldTen(), n);
    }
    hide *;
  }

  lemma StartsDeposited(published: Instant)
    ensures RunThrough(Paying(published), THREE_SESSIONS, HoldTen(), 0).Success?
    ensures RunThrough(Paying(published), THREE_SESSIONS, HoldTen(), 0).value.book == DepositedBook()
  {
  }

  lemma TenWanted(m: Market, clock: Date, positions: Positions, value: real)
    ensures HoldTen()(m, clock, positions, value) == map[1 := 10]
    ensures THREE_SESSIONS.sessions[0] == 0 && 0 in THREE_SESSIONS.rebalanceDays && THREE_SESSIONS.costs == FREE
  {
  }

  lemma BoughtOnFirst(published: Instant)
    ensures RunThrough(Paying(published), THREE_SESSIONS, HoldTen(), 1).Success?
    ensures RunThrough(Paying(published), THREE_SESSIONS, HoldTen(), 1).value.book == BoughtBook()
  {
    var m, value := Paying(published), ValueOn(Paying(published), DepositedBook(), 0);
    assert DepositedBook().positions == map[] && 0 != PaidIn(published);
    hide *;
    StartsDeposited(published);
    RunsOn(published, 1);
    TenWanted(m, DecisionClock(THREE_SESSIONS, 0), map[], if value.Success? then value.value else 0.0);
    OpensQuietly(published, DepositedBook(), 0);
    TenAreBought(published);
    BookAfter(m, THREE_SESSIONS, HoldTen(), RunThrough(m, THREE_SESSIONS, HoldTen(), 0).value, 0, DepositedBook());
  }

  /** A later session keeps the book it opens with. */
  lemma KeptOn(published: Instant, n: nat, before: Book, open: Book)
    requires 1 < n <= 3
    requires RunThrough(Paying(published), THREE_SESSIONS, HoldTen(), n - 1).Success?
    requires RunThrough(Paying(published), THREE_SESSIONS, HoldTen(), n - 1).value.book == before
    requires OpenDay(Paying(published), before, THREE_SESSIONS.sessions[n - 1]) == Success(open)
    ensures RunThrough(Paying(published), THREE_SESSIONS, HoldTen(), n).Success?
    ensures RunThrough(Paying(published), THREE_SESSIONS, HoldTen(), n).value.book == open
  {
    hide RunThrough;
    hide DayStep;
    hide OpenDay;
    hide Paying;
    RunsOn(published, n);
    BookAfter(Paying(published), THREE_SESSIONS, HoldTen(), RunThrough(Paying(published), THREE_SESSIONS, HoldTen(), n - 1).value, n - 1, open);
  }

  lemma NotStale(published: Instant, b: Book, day: Date)
    requires day in [0, 1, 5] && b.positions.Keys <= {1}
    ensures NoneStale(Paying(published), b.positions, day)
  {
    PricesAreOne(published, day);
  }

  lemma OpensQuietly(published: Instant, b: Book, day: Date)
    requires day in [0, 1, 5] && b.positions.Keys <= {1} && day != PaidIn(published)
    ensures OpenDay(Paying(published), b, day) == Success(b)
  {
    NotStale(published, b, day);
    PayingEffects(published, day);
    hide EffectiveOn;
    QuietOpen(Paying(published), b, day);
  }

  /** On the day the dividend takes effect it is credited on the ten shares held. */
  lemma OpensPaid(published: Instant)
    requires PaidIn(published) == 1
    ensures OpenDay(Paying(published), BoughtBook(), 1) == Success(PaidBook())
  {
    var m := Paying(published);
    PayingEffects(published, 1);
    NotStale(published, PaidBook(), 1);
    Sorting.AscendingProperties(PaidBook().positions.Keys);
    NoExits(m, PaidBook(), HeldIds(PaidBook()), 1);
    var e := LedgerEvent(1, DividendCredit, Some(1), 0, 20.0, Some(2.0), 0.0);
    assert Times(2.0, 10 as real) == 20.0;
    assert ApplyAction(m, BoughtBook(), m.actions[0], 1) == Record(BoughtBook(), e);
    assert Record(BoughtBook(), e) == Success(PaidBook());
    assert m.actions[1..] == [];
    assert ApplyActions(m, PaidBook(), [], 1) == Success(PaidBook());
    hide ApplyAction;
    hide EffectiveOn;
    hide ExitStale;
    assert ApplyActions(m, BoughtBook(), m.actions, 1) == Success(PaidBook());
  }

  ghost predicate PaidOut(b: Book) {
    exists e :: e in b.events && e.kind == DividendCredit
  }

  /** A held share's dividend, ex on a session and published two days before the next one, is never
      credited; published on its ex-date it is. Both runs hold the ten shares throughout. */
  lemma LateDividendIsNeverPaid()
    ensures Effective(Paying(EndOfDay(3)).actions[0]) == 3 && 3 !in THREE_SESSIONS.sessions
    ensures var late := RunThrough(Paying(EndOfDay(3)), THREE_SESSIONS, HoldTen(), 3);
            late.Success? && late.value.book.positions == map[1 := 10] && late.value.book.cash == 90.0 && !PaidOut(late.value.book)
    ensures var prompt := RunThrough(Paying(EndOfDay(1)), THREE_SESSIONS, HoldTen(), 3);
            prompt.Success? && prompt.value.book.positions == map[1 := 10] && prompt.value.book.cash == 110.0 && PaidOut(prompt.value.book)
  {
    LateRun();
    PromptRun();
    hide RunThrough;
    assert PaidBook().events[2] in PaidBook().events;
  }

  lemma LateRun()
    ensures RunThrough(Paying(EndOfDay(3)), THREE_SESSIONS, HoldTen(), 3).Success?
    ensures RunThrough(Paying(EndOfDay(3)), THREE_SESSIONS, HoldTen(), 3).value.book == BoughtBook()
  {
    assert PaidIn(EndOfDay(3)) == 3;
    assert BoughtBook().positions.Keys == {1};
    hide RunThrough;
    hide OpenDay;
    hide Paying;
    hide PaidIn;
    hide EndOfDay;
    BoughtOnFirst(EndOfDay(3));
    OpensQuietly(EndOfDay(3), BoughtBook(), 1);
    KeptOn(EndOfDay(3), 2, BoughtBook(), BoughtBook());
    OpensQuietly(EndOfDay(3), BoughtBook(), 5);
    KeptOn(EndOfDay(3), 3, BoughtBook(), BoughtBook());
  }

  lemma PromptRun()
    ensures RunThrough(Paying(EndOfDay(1)), THREE_SESSIONS, HoldTen(), 3).Success?
    ensures RunThrough(Paying(EndOfDay(1)), THREE_SESSIONS, HoldTen(), 3).value.book == PaidBook()
  {
    assert PaidIn(EndOfDay(1)) == 1;
    assert PaidBook().positions.Keys == {1};
    hide RunThrough;
    hide OpenDay;
    hide Paying;
    hide PaidIn;
    hide EndOfDay;
    BoughtOnFirst(EndOfDay(1));
    OpensPaid(EndOfDay(1));
    KeptOn(EndOfDay(1), 2, BoughtBook(), PaidBook());
    OpensQuietly(EndOfDay(1), PaidBook(), 5);
    KeptOn(EndOfDay(1), 3, PaidBook(), PaidBook());
  }
}
