/** The order in which a rebalance trades, and what its purchases get. */
module Rebalancing {
  import opened Arithmetic
  import opened Domain
  import opened Markets
  import opened Costs
  import opened Ledger
  import opened Trading
  import Affordable
  import Sorting
  import Sums

  // ----- fills one after another

  lemma {:induction false} FillAllConcat(m: Market, cfg: CostConfig, b: Book, start: Positions, targets: Positions,
                                         x: seq<SecurityId>, y: seq<SecurityId>, day: Date)
    ensures var first := FillAll(m, cfg, b, start, targets, x, day);
            FillAll(m, cfg, b, start, targets, x + y, day)
            == if first.Failure? then first else FillAll(m, cfg, first.value, start, targets, y, day)
    decreases |x|
  {
    hide Fill;
    if x == [] {
      assert x + y == y;
    } else {
      assert (x + y)[1..] == x[1..] + y;
      var next := Fill(m, cfg, b, x[0], Delta(start, targets, x[0]), day);
      if next.Success? {
        FillAllConcat(m, cfg, next.value, start, targets, x[1..], y, day);
      }
    }
  }

  /** The one event a fill may append: a sale for a falling holding, a purchase for a rising one. */
  ghost predicate TradeFor(e: LedgerEvent, sid: SecurityId, delta: int) {
    e.sid == Some(sid) && e.kind == (if delta < 0 then SellTrade else BuyTrade)
  }

  lemma FillEvent(m: Market, cfg: CostConfig, b: Book, sid: SecurityId, delta: int, day: Date)
    requires Fill(m, cfg, b, sid, delta, day).Success?
    ensures var r := Fill(m, cfg, b, sid, delta, day).value;
            r == b || (|r.events| == |b.events| + 1 && b.events <= r.events && TradeFor(r.events[|b.events|], sid, delta)
                       && r.cash == b.cash + r.events[|b.events|].cashDelta)
  {
    hide SameDayClose;
    hide SellCosts;
    hide BuyCosts;
    hide MedianTradedValue;
    hide Affordable.AffordableShares;
    hide Cost;
    hide Times;
  }

  ghost predicate Precedes(ids: seq<SecurityId>, x: SecurityId, y: SecurityId) {
    exists i, j :: 0 <= i < j < |ids| && ids[i] == x && ids[j] == y
  }

  /** The events trade securities of the list, in the list's order, each in its order's direction. */
  ghost predicate Follow(events: seq<LedgerEvent>, ids: seq<SecurityId>, start: Positions, targets: Positions) {
    && (forall p :: 0 <= p < |events| ==>
          events[p].sid.Some? && events[p].sid.value in ids
          && TradeFor(events[p], events[p].sid.value, Delta(start, targets, events[p].sid.value)))
    && (forall p, q :: 0 <= p < q < |events| ==>
          events[p].sid.Some? && events[q].sid.Some? && Precedes(ids, events[p].sid.value, events[q].sid.value))
  }

  lemma FollowMore(e: seq<LedgerEvent>, rest: seq<LedgerEvent>, ids: seq<SecurityId>, start: Positions, targets: Positions)
    requires ids != [] && Follow(rest, ids[1..], start, targets)
    requires |e| <= 1 && (|e| == 1 ==> TradeFor(e[0], ids[0], Delta(start, targets, ids[0])))
    ensures Follow(e + rest, ids, start, targets)
  {
    var all := e + rest;
    forall p, q | 0 <= p < q < |all|
      ensures all[p].sid.Some? && all[q].sid.Some? && Precedes(ids, all[p].sid.value, all[q].sid.value)
    {
      assert all[q] == rest[q - |e|];
      if p < |e| {
        var j :| 0 <= j < |ids[1..]| && ids[1..][j] == all[q].sid.value;
        assert ids[0] == all[p].sid.value && ids[j + 1] == all[q].sid.value;
      } else {
        assert all[p] == rest[p - |e|];
        var i, j :| 0 <= i < j < |ids[1..]| && ids[1..][i] == all[p].sid.value && ids[1..][j] == all[q].sid.value;
        assert ids[i + 1] == all[p].sid.value && ids[j + 1] == all[q].sid.value;
      }
    }
    forall p | 0 <= p < |all|
      ensures all[p].sid.Some? && all[p].sid.value in ids
      ensures TradeFor(all[p], all[p].sid.value, Delta(start, targets, all[p].sid.value))
    {
      if p >= |e| {
        assert all[p] == rest[p - |e|];
      }
    }
  }

  lemma {:induction false} EventsFollow(m: Market, cfg: CostConfig, b: Book, start: Positions, targets: Positions,
                                        ids: seq<SecurityId>, day: Date)
    requires FillAll(m, cfg, b, start, targets, ids, day).Success?
    ensures var r := FillAll(m, cfg, b, start, targets, ids, day).value;
            b.events <= r.events && Follow(r.events[|b.events|..], ids, start, targets)
    decreases |ids|
  {
    if ids == [] {
      assert b.events[|b.events|..] == [];
    } else {
      FillEvent(m, cfg, b, ids[0], Delta(start, targets, ids[0]), day);
      hide Fill;
      hide Follow;
      var next := Fill(m, cfg, b, ids[0], Delta(start, targets, ids[0]), day).value;
      EventsFollow(m, cfg, next, start, targets, ids[1..], day);
      var r := FillAll(m, cfg, next, start, targets, ids[1..], day).value;
      FollowMore(next.events[|b.events|..], r.events[|next.events|..], ids, start, targets);
      assert r.events[|b.events|..] == next.events[|b.events|..] + r.events[|next.events|..];
    }
  }

  // ----- the order of a rebalance's trades

  /** Of two trades of a rebalance, `e` may come before `f`: never a purchase before a sale, sales by
      falling net proceeds and then id, purchases by rising id. */
  ghost predicate InTurn(m: Market, cfg: CostConfig, start: Positions, targets: Positions, day: Date, e: LedgerEvent, f: LedgerEvent) {
    && e.sid.Some? && f.sid.Some? && e.sid != f.sid
    && !(e.kind == BuyTrade && f.kind == SellTrade)
    && (e.kind == SellTrade && f.kind == SellTrade ==>
          var x, y := Delta(start, targets, e.sid.value), Delta(start, targets, f.sid.value);
          x < 0 && y < 0 && NetFirst(Ranked(SellNet(m, cfg, e.sid.value, -x, day), e.sid.value),
                                     Ranked(SellNet(m, cfg, f.sid.value, -y, day), f.sid.value)))
    && (e.kind == BuyTrade && f.kind == BuyTrade ==> e.sid.value < f.sid.value)
  }

  ghost predicate NetBefore(m: Market, cfg: CostConfig, start: Positions, targets: Positions, day: Date, x: SecurityId, y: SecurityId)
    requires Delta(start, targets, x) < 0 && Delta(start, targets, y) < 0
  {
    NetFirst(Ranked(SellNet(m, cfg, x, -Delta(start, targets, x), day), x), Ranked(SellNet(m, cfg, y, -Delta(start, targets, y), day), y))
  }

  lemma SalesListed(m: Market, cfg: CostConfig, start: Positions, targets: Positions, day: Date)
    ensures var sells := OrderedSells(m, cfg, start, targets, day);
            && (forall k :: 0 <= k < |sells| ==> Delta(start, targets, sells[k]) < 0)
            && (forall i, j :: 0 <= i < j < |sells| ==> NetBefore(m, cfg, start, targets, day, sells[i], sells[j]))
  {
    var ranked := SalesByProceeds(m, cfg, start, targets, day);
    hide OrderedSells;
    hide SellNet;
    hide Delta;
    hide NetFirst;
    var sells := OrderedSells(m, cfg, start, targets, day);
    forall k | 0 <= k < |sells|
      ensures RankOf(m, cfg, start, targets, day, ranked[k]) && ranked[k].sid == sells[k]
    {
      assert ranked[k] in ranked;
    }
    forall i, j | 0 <= i < j < |sells|
      ensures NetBefore(m, cfg, start, targets, day, sells[i], sells[j])
    {
      assert RankOf(m, cfg, start, targets, day, ranked[i]) && RankOf(m, cfg, start, targets, day, ranked[j]);
      assert NetFirst(ranked[i], ranked[j]);
    }
  }

  lemma PurchasesListed(start: Positions, targets: Positions)
    ensures var buys := OrderedBuys(start, targets);
            && (forall k :: 0 <= k < |buys| ==> Delta(start, targets, buys[k]) > 0)
            && (forall i, j :: 0 <= i < j < |buys| ==> buys[i] < buys[j])
            && Distinct(buys)
            && (forall sid :: sid in buys <==> Delta(start, targets, sid) > 0)
  {
    Sorting.AscendingProperties(BuyIds(start, targets));
    var buys := OrderedBuys(start, targets);
    forall k | 0 <= k < |buys|
      ensures Delta(start, targets, buys[k]) > 0
    {
      assert buys[k] in BuyIds(start, targets);
    }
    forall sid | Delta(start, targets, sid) > 0
      ensures sid in buys
    {
      assert sid in BuyIds(start, targets);
    }
  }

  lemma PlaceInLists(x: seq<SecurityId>, y: seq<SecurityId>, u: SecurityId, v: SecurityId)
    requires Distinct(x + y) && Precedes(x + y, u, v)
    ensures u != v && (Precedes(x, u, v) || (u in x && v in y) || Precedes(y, u, v))
  {
    var ids := x + y;
    var i, j :| 0 <= i < j < |ids| && ids[i] == u && ids[j] == v;
    if j < |x| {
      assert x[i] == u && x[j] == v;
    } else if i >= |x| {
      assert y[i - |x|] == u && y[j - |x|] == v;
    } else {
      assert x[i] == u && y[j - |x|] == v;
    }
  }

  lemma SalesInTurn(m: Market, cfg: CostConfig, start: Positions, targets: Positions, day: Date, u: SecurityId, v: SecurityId)
    ensures u in OrderedSells(m, cfg, start, targets, day) ==> Delta(start, targets, u) < 0
    ensures Precedes(OrderedSells(m, cfg, start, targets, day), u, v) ==>
              Delta(start, targets, u) < 0 && Delta(start, targets, v) < 0 && NetBefore(m, cfg, start, targets, day, u, v)
  {
    SalesListed(m, cfg, start, targets, day);
    hide OrderedSells;
    hide NetBefore;
    hide Delta;
  }

  lemma PurchasesInTurn(start: Positions, targets: Positions, u: SecurityId, v: SecurityId)
    ensures v in OrderedBuys(start, targets) ==> Delta(start, targets, v) > 0
    ensures Precedes(OrderedBuys(start, targets), u, v) ==> Delta(start, targets, u) > 0 && Delta(start, targets, v) > 0 && u < v
  {
    PurchasesListed(start, targets);
    hide OrderedBuys;
    hide Delta;
  }

  /** Where the orders of the list stand: sales by rank, then purchases by id. */
  lemma ListedInTurn(m: Market, cfg: CostConfig, start: Positions, targets: Positions, day: Date, e: LedgerEvent, f: LedgerEvent)
    requires e.sid.Some? && f.sid.Some?
    requires Precedes(OrderedSells(m, cfg, start, targets, day) + OrderedBuys(start, targets), e.sid.value, f.sid.value)
    requires TradeFor(e, e.sid.value, Delta(start, targets, e.sid.value)) && TradeFor(f, f.sid.value, Delta(start, targets, f.sid.value))
    ensures InTurn(m, cfg, start, targets, day, e, f)
  {
    OrdersNamedOnce(m, cfg, start, targets, day);
    hide OrderedSells;
    hide OrderedBuys;
    hide SellNet;
    hide Delta;
    hide NetFirst;
    var u, v := e.sid.value, f.sid.value;
    PlaceInLists(OrderedSells(m, cfg, start, targets, day), OrderedBuys(start, targets), u, v);
    hide Precedes;
    SalesInTurn(m, cfg, start, targets, day, u, v);
    PurchasesInTurn(start, targets, u, v);
  }

  /** The trades a rebalance adds to the log: every sale before every purchase, sales by falling net
      proceeds, purchases by id. */
  lemma SalesThenPurchases(m: Market, cfg: CostConfig, b: Book, targets: Positions, day: Date)
    requires Execute(m, cfg, b, targets, day).Success?
    ensures var r := Execute(m, cfg, b, targets, day).value;
            && b.events <= r.events
            && var traded := r.events[|b.events|..];
            forall p, q :: 0 <= p < q < |traded| ==> InTurn(m, cfg, b.positions, targets, day, traded[p], traded[q])
  {
    var ids := OrderedSells(m, cfg, b.positions, targets, day) + OrderedBuys(b.positions, targets);
    EventsFollow(m, cfg, b, b.positions, targets, ids, day);
    hide OrderedSells;
    hide OrderedBuys;
    hide FillAll;
    hide InTurn;
    var traded := Execute(m, cfg, b, targets, day).value.events[|b.events|..];
    forall p, q | 0 <= p < q < |traded|
      ensures InTurn(m, cfg, b.positions, targets, day, traded[p], traded[q])
    {
      ListedInTurn(m, cfg, b.positions, targets, day, traded[p], traded[q]);
    }
  }

  // ----- what a purchase gets

  function OutlayFor(m: Market, cfg: CostConfig, sid: SecurityId, price: Positive, shares: int, day: Date): real
    requires shares > 0
  {
    Affordable.Outlay(cfg, sid, price, MedianTradedValue(m, sid, day), shares)
  }

  /** The whole request is granted exactly when its outlay is within the cash. */
  lemma GrantedInFull(cfg: CostConfig, sid: SecurityId, price: Positive, liquidity: Option<real>, cash: real, shares: int)
    requires shares > 0
    ensures Affordable.AffordableShares(cfg, sid, price, liquidity, cash, shares) == shares
            <==> Affordable.Outlay(cfg, sid, price, liquidity, shares) <= cash
  {
    Affordable.AffordableSharesFit(cfg, sid, price, liquidity, cash, shares);
    hide Affordable.Outlay;
  }

  function Granted(m: Market, cfg: CostConfig, cash: real, sid: SecurityId, delta: int, day: Date): int
    requires SameDayClose(m, sid, day).Some?
  {
    Affordable.AffordableShares(cfg, sid, SameDayClose(m, sid, day).value, MedianTradedValue(m, sid, day), cash, delta)
  }

  /** A purchase adds what the cash of its turn grants. */
  lemma PurchaseAdds(m: Market, cfg: CostConfig, b: Book, sid: SecurityId, delta: int, day: Date)
    requires Sound(b) && delta > 0 && SameDayClose(m, sid, day).Some? && Fill(m, cfg, b, sid, delta, day).Success?
    ensures var r := Fill(m, cfg, b, sid, delta, day).value;
            && Quantity(r.positions, sid) == Quantity(b.positions, sid) + Granted(m, cfg, b.cash, sid, delta, day)
            && (Granted(m, cfg, b.cash, sid, delta, day) == delta ==>
                  r.cash == b.cash - OutlayFor(m, cfg, sid, SameDayClose(m, sid, day).value, delta, day))
  {
    SoundIsSolvent(b);
    var price, liquidity := SameDayClose(m, sid, day).value, MedianTradedValue(m, sid, day);
    Affordable.AffordableSharesFit(cfg, sid, price, liquidity, b.cash, delta);
    OutlayParts(m, cfg, sid, delta, price, day);
    hide SameDayClose;
    hide MedianTradedValue;
    hide Affordable.AffordableShares;
    hide Affordable.Outlay;
    hide Cost;
    hide BuyCosts;
    hide Times;
    hide Sound;
  }

  ghost predicate OnlyPurchases(events: seq<LedgerEvent>) {
    forall e :: e in events ==> e.kind == BuyTrade
  }

  /** The book `p` of a purchase's turn: every sale has been dealt with, the holding is still untouched,
      and what it then adds is what the cash of that book grants. */
  ghost predicate TurnOf(m: Market, cfg: CostConfig, b: Book, targets: Positions, sid: SecurityId, day: Date, p: Book, r: Book)
    requires SameDayClose(m, sid, day).Some?
  {
    var delta := Delta(b.positions, targets, sid);
    && Sound(p) && b.events <= p.events <= r.events
    && OnlyPurchases(r.events[|p.events|..])
    && (forall s :: Delta(b.positions, targets, s) < 0 ==> SameHolding(r.positions, p.positions, s))
    && SameHolding(p.positions, b.positions, sid)
    && Quantity(r.positions, sid) == Quantity(b.positions, sid) + Granted(m, cfg, p.cash, sid, delta, day)
  }

  lemma FollowsUpward(events: seq<LedgerEvent>, ids: seq<SecurityId>, start: Positions, targets: Positions)
    requires Follow(events, ids, start, targets) && forall sid :: sid in ids ==> Delta(start, targets, sid) > 0
    ensures OnlyPurchases(events)
  {
    hide Delta;
    forall e | e in events
      ensures e.kind == BuyTrade
    {
      var p :| 0 <= p < |events| && events[p] == e;
      assert TradeFor(events[p], events[p].sid.value, Delta(start, targets, events[p].sid.value));
    }
  }

  /** The book after the orders before a turn, which leave the orders still to come alone. */
  lemma BeforeTurn(m: Market, cfg: CostConfig, b: Book, targets: Positions, x: seq<SecurityId>, rest: seq<SecurityId>, day: Date, marks: Marks)
    requires Sound(b) && NonNegativeTargets(targets) && DayMarks(m, day, marks)
    requires Distinct(x) && forall s :: s in rest ==> s !in x
    ensures var first := FillAll(m, cfg, b, b.positions, targets, x, day);
            && first.Success? && Sound(first.value) && b.events <= first.value.events
            && forall s :: s in rest ==> SameHolding(first.value.positions, b.positions, s)
  {
    var start := b.positions;
    FillAllIsSafe(m, cfg, b, start, targets, x, day, marks);
    var p := FillAll(m, cfg, b, start, targets, x, day).value;
    hide FillAll;
    forall s | s in rest
      ensures SameHolding(p.positions, start, s)
    {
      assert Settled(m, cfg, start, b.positions, p.positions, targets, s, s in x, day);
    }
  }

  /** The purchase itself. */
  lemma AtTurn(m: Market, cfg: CostConfig, p: Book, sid: SecurityId, delta: int, day: Date, marks: Marks)
    requires Sound(p) && delta > 0 && SameDayClose(m, sid, day).Some? && DayMarks(m, day, marks)
    ensures var n := Fill(m, cfg, p, sid, delta, day);
            && n.Success? && Sound(n.value) && p.events <= n.value.events
            && |n.value.events| <= |p.events| + 1
            && (|n.value.events| > |p.events| ==> n.value.events[|p.events|].kind == BuyTrade)
            && (forall s :: s != sid ==> SameHolding(n.value.positions, p.positions, s))
            && Quantity(n.value.positions, sid) == Quantity(p.positions, sid) + Granted(m, cfg, p.cash, sid, delta, day)
  {
    SoundIsSolvent(p);
    FillIsSafe(m, cfg, p, sid, delta, day, marks);
    PurchaseAdds(m, cfg, p, sid, delta, day);
    FillEvent(m, cfg, p, sid, delta, day);
    hide Fill;
    hide Granted;
    hide DayMarks;
    hide Sound;
  }

  /** Further purchases leave every other holding alone. */
  lemma AfterTurn(m: Market, cfg: CostConfig, n: Book, start: Positions, targets: Positions, y: seq<SecurityId>, day: Date, marks: Marks)
    requires Sound(n) && NonNegativeTargets(targets) && DayMarks(m, day, marks) && Distinct(y)
    requires forall s :: s in y ==> SameHolding(n.positions, start, s) && Delta(start, targets, s) > 0
    ensures var r := FillAll(m, cfg, n, start, targets, y, day);
            && r.Success? && Sound(r.value) && n.events <= r.value.events && OnlyPurchases(r.value.events[|n.events|..])
            && forall s :: s !in y ==> SameHolding(r.value.positions, n.positions, s)
  {
    FillAllIsSafe(m, cfg, n, start, targets, y, day, marks);
    EventsFollow(m, cfg, n, start, targets, y, day);
    var r := FillAll(m, cfg, n, start, targets, y, day).value;
    FollowsUpward(r.events[|n.events|..], y, start, targets);
    hide FillAll;
    hide Follow;
    forall s | s !in y
      ensures SameHolding(r.positions, n.positions, s)
    {
      assert Settled(m, cfg, start, n.positions, r.positions, targets, s, s in y, day);
    }
  }

  /** One purchase in its turn, with the orders before it and those after it. */
  lemma TurnAmong(m: Market, cfg: CostConfig, b: Book, targets: Positions, x: seq<SecurityId>, sid: SecurityId, y: seq<SecurityId>,
                  day: Date, marks: Marks)
    returns (p: Book)
    requires Sound(b) && NonNegativeTargets(targets) && DayMarks(m, day, marks)
    requires Distinct(x + [sid] + y) && SameDayClose(m, sid, day).Some? && Delta(b.positions, targets, sid) > 0
    requires forall s :: s in y ==> Delta(b.positions, targets, s) > 0
    ensures FillAll(m, cfg, b, b.positions, targets, x + [sid] + y, day).Success?
    ensures TurnOf(m, cfg, b, targets, sid, day, p, FillAll(m, cfg, b, b.positions, targets, x + [sid] + y, day).value)
  {
    hide FillAll;
    hide Fill;
    hide Granted;
    hide DayMarks;
    hide Sound;
    hide Delta;
    var start, delta := b.positions, Delta(b.positions, targets, sid);
    DistinctParts(x, sid, y);
    hide Distinct;
    BeforeTurn(m, cfg, b, targets, x, [sid] + y, day, marks);
    p := FillAll(m, cfg, b, start, targets, x, day).value;
    assert sid in [sid] + y && forall s :: s in y ==> s in [sid] + y;
    AtTurn(m, cfg, p, sid, delta, day, marks);
    var n := Fill(m, cfg, p, sid, delta, day).value;
    assert forall s :: s in y ==> s != sid && SameHolding(n.positions, p.positions, s);
    AfterTurn(m, cfg, n, start, targets, y, day, marks);
    OneAfterAnother(m, cfg, b, start, targets, x, sid, y, day);
    var r := FillAll(m, cfg, n, start, targets, y, day).value;
    TradesAfter(p, n, r);
    hide OnlyPurchases;
    assert SameHolding(r.positions, n.positions, sid);
    forall s | Delta(start, targets, s) < 0
      ensures SameHolding(r.positions, p.positions, s)
    {
      assert s !in y && s != sid;
      assert SameHolding(r.positions, n.positions, s) && SameHolding(n.positions, p.positions, s);
    }
  }

  lemma DistinctParts(x: seq<SecurityId>, sid: SecurityId, y: seq<SecurityId>)
    requires Distinct(x + [sid] + y)
    ensures Distinct(x) && Distinct(y) && sid !in x && sid !in y && forall s :: s in y ==> s !in x
  {
    var all := x + [sid] + y;
    assert forall k :: 0 <= k < |x| ==> all[k] == x[k];
    assert all[|x|] == sid;
    assert forall k :: 0 <= k < |y| ==> all[|x| + 1 + k] == y[k];
  }

  lemma OneAfterAnother(m: Market, cfg: CostConfig, b: Book, start: Positions, targets: Positions, x: seq<SecurityId>, sid: SecurityId,
                        y: seq<SecurityId>, day: Date)
    requires FillAll(m, cfg, b, start, targets, x, day).Success?
    requires Fill(m, cfg, FillAll(m, cfg, b, start, targets, x, day).value, sid, Delta(start, targets, sid), day).Success?
    ensures var p := FillAll(m, cfg, b, start, targets, x, day).value;
            FillAll(m, cfg, b, start, targets, x + [sid] + y, day)
            == FillAll(m, cfg, Fill(m, cfg, p, sid, Delta(start, targets, sid), day).value, start, targets, y, day)
  {
    hide Fill;
    assert x + [sid] + y == x + ([sid] + y) && ([sid] + y)[1..] == y;
    FillAllConcat(m, cfg, b, start, targets, x, [sid] + y, day);
  }

  lemma TradesAfter(p: Book, n: Book, r: Book)
    requires p.events <= n.events <= r.events && |n.events| <= |p.events| + 1
    requires |n.events| > |p.events| ==> n.events[|p.events|].kind == BuyTrade
    requires OnlyPurchases(r.events[|n.events|..])
    ensures OnlyPurchases(r.events[|p.events|..])
  {
    assert r.events[|p.events|..] == n.events[|p.events|..] + r.events[|n.events|..];
  }

  /** The two lists: sales of falling holdings, then purchases of rising ones, each security once. */
  lemma OrderLists(m: Market, cfg: CostConfig, start: Positions, targets: Positions, day: Date)
    ensures var sells, buys := OrderedSells(m, cfg, start, targets, day), OrderedBuys(start, targets);
            && Distinct(sells + buys) && Distinct(sells) && Distinct(buys)
            && (forall s :: s in sells ==> Delta(start, targets, s) < 0)
            && (forall s :: s in buys <==> Delta(start, targets, s) > 0)
            && (forall s :: s in buys ==> s !in sells)
  {
    OrdersNamedOnce(m, cfg, start, targets, day);
    SalesListed(m, cfg, start, targets, day);
    PurchasesListed(start, targets);
    hide OrderedSells;
    hide OrderedBuys;
    hide Delta;
    DistinctHead(OrderedSells(m, cfg, start, targets, day), OrderedBuys(start, targets));
  }

  lemma SplitAround(sells: seq<SecurityId>, buys: seq<SecurityId>, sid: SecurityId) returns (x: seq<SecurityId>, y: seq<SecurityId>)
    requires sid in buys
    ensures x + [sid] + y == sells + buys && forall s :: s in y ==> s in buys
  {
    var k :| 0 <= k < |buys| && buys[k] == sid;
    x, y := sells + buys[..k], buys[k + 1..];
  }

  lemma ExecuteIs(m: Market, cfg: CostConfig, b: Book, targets: Positions, day: Date)
    ensures Execute(m, cfg, b, targets, day)
         == FillAll(m, cfg, b, b.positions, targets, OrderedSells(m, cfg, b.positions, targets, day) + OrderedBuys(b.positions, targets), day)
  {
  }

  lemma TurnGrants(m: Market, cfg: CostConfig, b: Book, targets: Positions, sid: SecurityId, day: Date, p: Book, r: Book)
    requires SameDayClose(m, sid, day).Some? && Delta(b.positions, targets, sid) > 0 && TurnOf(m, cfg, b, targets, sid, day, p, r)
    ensures Quantity(r.positions, sid) == Quantity(targets, sid)
            <==> OutlayFor(m, cfg, sid, SameDayClose(m, sid, day).value, Delta(b.positions, targets, sid), day) <= p.cash
  {
    GrantedInFull(cfg, sid, SameDayClose(m, sid, day).value, MedianTradedValue(m, sid, day), p.cash, Delta(b.positions, targets, sid));
    hide SameDayClose;
    hide MedianTradedValue;
    hide Affordable.AffordableShares;
    hide Affordable.Outlay;
  }

  /** Every purchase with a same-day print has its turn once all sales are dealt with. It ends short of
      its target exactly when its whole order could not be afforded from the cash left at its turn. */
  lemma PurchasesGetTheirTurn(m: Market, cfg: CostConfig, b: Book, targets: Positions, sid: SecurityId, day: Date, marks: Marks)
    returns (p: Book)
    requires Sound(b) && NonNegativeTargets(targets) && DayMarks(m, day, marks)
    requires SameDayClose(m, sid, day).Some? && Delta(b.positions, targets, sid) > 0
    ensures Execute(m, cfg, b, targets, day).Success?
    ensures var r := Execute(m, cfg, b, targets, day).value;
            && TurnOf(m, cfg, b, targets, sid, day, p, r)
            && (Quantity(r.positions, sid) == Quantity(targets, sid)
                <==> OutlayFor(m, cfg, sid, SameDayClose(m, sid, day).value, Delta(b.positions, targets, sid), day) <= p.cash)
  {
    hide *;
    OrderLists(m, cfg, b.positions, targets, day);
    var x, y := SplitAround(OrderedSells(m, cfg, b.positions, targets, day), OrderedBuys(b.positions, targets), sid);
    p := TurnAmong(m, cfg, b, targets, x, sid, y, day, marks);
    ExecuteIs(m, cfg, b, targets, day);
    TurnGrants(m, cfg, b, targets, sid, day, p, Execute(m, cfg, b, targets, day).value);
  }

  // ----- when every purchase is filled

  /** What the printing purchases of a rebalance cost in all, each in full. */
  ghost function PurchaseOutlay(m: Market, cfg: CostConfig, start: Positions, targets: Positions, day: Date): real {
    Sums.Total(Outlays(m, cfg, start, targets, BuyIds(start, targets), day))
  }

  ghost function Outlays(m: Market, cfg: CostConfig, start: Positions, targets: Positions, ids: set<SecurityId>, day: Date): map<SecurityId, real> {
    map sid | sid in ids :: OrderOutlay(m, cfg, start, targets, sid, day)
  }

  function OrderOutlay(m: Market, cfg: CostConfig, start: Positions, targets: Positions, sid: SecurityId, day: Date): real {
    if SameDayClose(m, sid, day).Some? && Delta(start, targets, sid) > 0
    then OutlayFor(m, cfg, sid, SameDayClose(m, sid, day).value, Delta(start, targets, sid), day)
    else 0.0
  }

  lemma OrderOutlayNonNegative(m: Market, cfg: CostConfig, start: Positions, targets: Positions, sid: SecurityId, day: Date)
    ensures OrderOutlay(m, cfg, start, targets, sid, day) >= 0.0
  {
    if SameDayClose(m, sid, day).Some? && Delta(start, targets, sid) > 0 {
      Affordable.OutlayPositive(cfg, sid, SameDayClose(m, sid, day).value, MedianTradedValue(m, sid, day), Delta(start, targets, sid));
    }
  }

  function ListOutlay(m: Market, cfg: CostConfig, start: Positions, targets: Positions, ids: seq<SecurityId>, day: Date): real {
    if ids == [] then 0.0
    else OrderOutlay(m, cfg, start, targets, ids[0], day) + ListOutlay(m, cfg, start, targets, ids[1..], day)
  }

  lemma {:induction false} ListOutlayTotals(m: Market, cfg: CostConfig, start: Positions, targets: Positions, ids: seq<SecurityId>, day: Date)
    requires Distinct(ids)
    ensures ListOutlay(m, cfg, start, targets, ids, day)
         == Sums.Total(Outlays(m, cfg, start, targets, (set sid | sid in ids), day))
    ensures ListOutlay(m, cfg, start, targets, ids, day) >= 0.0
  {
    var all := Outlays(m, cfg, start, targets, (set sid | sid in ids), day);
    if ids == [] {
      assert all == map[];
    } else {
      ListOutlayTotals(m, cfg, start, targets, ids[1..], day);
      OrderOutlayNonNegative(m, cfg, start, targets, ids[0], day);
      hide OrderOutlay;
      Sums.TotalRemove(all, ids[0]);
      var rest := Outlays(m, cfg, start, targets, (set sid | sid in ids[1..]), day);
      assert forall sid :: sid in rest <==> sid in ids && sid != ids[0];
      SameEntries(all - {ids[0]}, rest);
    }
  }

  lemma SameEntries<K, V>(a: map<K, V>, b: map<K, V>)
    requires (forall k :: k in a <==> k in b) && forall k :: k in a && k in b ==> a[k] == b[k]
    ensures a == b
  {
  }

  /** With cash for every order of the list, every one that prints is filled in full. */
  lemma {:induction false} AllGranted(m: Market, cfg: CostConfig, b: Book, start: Positions, targets: Positions, ids: seq<SecurityId>,
                                      day: Date, marks: Marks)
    requires Sound(b) && Distinct(ids) && NonNegativeTargets(targets) && DayMarks(m, day, marks)
    requires forall s :: s in ids ==> SameHolding(b.positions, start, s) && Delta(start, targets, s) > 0
    requires ListOutlay(m, cfg, start, targets, ids, day) <= b.cash
    ensures FillAll(m, cfg, b, start, targets, ids, day).Success?
    ensures forall s :: s in ids && SameDayClose(m, s, day).Some? ==>
              Quantity(FillAll(m, cfg, b, start, targets, ids, day).value.positions, s) == Quantity(targets, s)
    decreases |ids|
  {
    if ids != [] {
      var sid, rest := ids[0], ids[1..];
      assert sid in ids;
      OneGranted(m, cfg, b, start, targets, sid, rest, day, marks);
      var next := Fill(m, cfg, b, sid, Delta(start, targets, sid), day).value;
      DistinctParts([], sid, rest);
      assert [] + [sid] + rest == ids;
      assert forall s :: s in rest ==> s in ids && s != sid && SameHolding(next.positions, b.positions, s);
      hide Fill;
      hide Distinct;
      hide OrderOutlay;
      AfterTurn(m, cfg, next, start, targets, rest, day, marks);
      AllGranted(m, cfg, next, start, targets, rest, day, marks);
      var r := FillAll(m, cfg, next, start, targets, rest, day).value;
      assert SameHolding(r.positions, next.positions, sid);
    }
  }

  lemma OneGranted(m: Market, cfg: CostConfig, b: Book, start: Positions, targets: Positions, sid: SecurityId, rest: seq<SecurityId>,
                   day: Date, marks: Marks)
    requires Sound(b) && NonNegativeTargets(targets) && DayMarks(m, day, marks) && Distinct(rest)
    requires SameHolding(b.positions, start, sid) && Delta(start, targets, sid) > 0
    requires OrderOutlay(m, cfg, start, targets, sid, day) + ListOutlay(m, cfg, start, targets, rest, day) <= b.cash
    ensures var n := Fill(m, cfg, b, sid, Delta(start, targets, sid), day);
            && n.Success? && Sound(n.value)
            && ListOutlay(m, cfg, start, targets, rest, day) <= n.value.cash
            && (forall s :: s != sid ==> SameHolding(n.value.positions, b.positions, s))
            && (SameDayClose(m, sid, day).Some? ==> Quantity(n.value.positions, sid) == Quantity(targets, sid))
  {
    var delta := Delta(start, targets, sid);
    ListOutlayTotals(m, cfg, start, targets, rest, day);
    if SameDayClose(m, sid, day).Some? {
      AtTurn(m, cfg, b, sid, delta, day, marks);
      GrantedInFull(cfg, sid, SameDayClose(m, sid, day).value, MedianTradedValue(m, sid, day), b.cash, delta);
      PurchaseAdds(m, cfg, b, sid, delta, day);
      hide Fill;
      hide ListOutlay;
    }
  }

  function SaleCash(events: seq<LedgerEvent>): real {
    if events == [] then 0.0
    else SaleCash(events[..|events| - 1]) + (if events[|events| - 1].kind == SellTrade then events[|events| - 1].cashDelta else 0.0)
  }

  lemma {:induction false} SaleCashConcat(x: seq<LedgerEvent>, y: seq<LedgerEvent>)
    requires OnlyPurchases(y)
    ensures SaleCash(x + y) == SaleCash(x)
    decreases |y|
  {
    if y == [] {
      assert x + y == x;
    } else {
      assert y[|y| - 1] in y;
      assert (x + y)[..|x + y| - 1] == x + y[..|y| - 1];
      SaleCashConcat(x, y[..|y| - 1]);
    }
  }

  ghost predicate OnlySales(events: seq<LedgerEvent>) {
    forall e :: e in events ==> e.kind == SellTrade
  }

  /** Replaying sales on top of a log adds their cash. */
  lemma {:induction false} SalesAddCash(x: seq<LedgerEvent>, y: seq<LedgerEvent>)
    requires OnlySales(y)
    ensures Replay(x + y).0 == Replay(x).0 + SaleCash(y)
    decreases |y|
  {
    if y == [] {
      assert x + y == x;
    } else {
      assert y[|y| - 1] in y;
      assert (x + y)[..|x + y| - 1] == x + y[..|y| - 1];
      SalesAddCash(x, y[..|y| - 1]);
    }
  }

  lemma CashRaised(b: Book, s: Book)
    requires Sound(b) && Sound(s) && b.events <= s.events && OnlySales(s.events[|b.events|..])
    ensures s.cash == b.cash + SaleCash(s.events[|b.events|..])
  {
    assert s.events == b.events + s.events[|b.events|..];
    SalesAddCash(b.events, s.events[|b.events|..]);
  }

  lemma CashRaisedBefore(b: Book, s: Book, r: Book)
    requires b.events <= s.events <= r.events && OnlyPurchases(r.events[|s.events|..])
    ensures SaleCash(r.events[|b.events|..]) == SaleCash(s.events[|b.events|..])
  {
    assert r.events[|b.events|..] == s.events[|b.events|..] + r.events[|s.events|..];
    SaleCashConcat(s.events[|b.events|..], r.events[|s.events|..]);
  }

  lemma ListIsOutlay(m: Market, cfg: CostConfig, start: Positions, targets: Positions, day: Date)
    ensures ListOutlay(m, cfg, start, targets, OrderedBuys(start, targets), day) == PurchaseOutlay(m, cfg, start, targets, day)
  {
    PurchasesListed(start, targets);
    BuysAreBuyIds(start, targets);
    ListOutlayTotals(m, cfg, start, targets, OrderedBuys(start, targets), day);
  }

  /** The book once the sales are dealt with. */
  lemma AfterSales(m: Market, cfg: CostConfig, b: Book, targets: Positions, day: Date, marks: Marks) returns (s: Book)
    requires Sound(b) && NonNegativeTargets(targets) && DayMarks(m, day, marks)
    ensures FillAll(m, cfg, b, b.positions, targets, OrderedSells(m, cfg, b.positions, targets, day), day) == Success(s)
    ensures Sound(s) && b.events <= s.events && s.cash == b.cash + SaleCash(s.events[|b.events|..]) && OnlySales(s.events[|b.events|..])
    ensures forall sid :: Delta(b.positions, targets, sid) > 0 ==> SameHolding(s.positions, b.positions, sid)
  {
    hide *;
    OrderLists(m, cfg, b.positions, targets, day);
    var sells, buys := OrderedSells(m, cfg, b.positions, targets, day), OrderedBuys(b.positions, targets);
    BeforeTurn(m, cfg, b, targets, sells, buys, day, marks);
    s := FillAll(m, cfg, b, b.positions, targets, sells, day).value;
    EventsFollow(m, cfg, b, b.positions, targets, sells, day);
    FollowsDownward(s.events[|b.events|..], sells, b.positions, targets);
    CashRaised(b, s);
  }

  lemma DistinctHead(x: seq<SecurityId>, y: seq<SecurityId>)
    requires Distinct(x + y)
    ensures Distinct(x) && forall s :: s in y ==> s !in x
  {
    assert forall k :: 0 <= k < |x| ==> (x + y)[k] == x[k];
    assert forall k :: 0 <= k < |y| ==> (x + y)[|x| + k] == y[k];
  }

  lemma FollowsDownward(events: seq<LedgerEvent>, ids: seq<SecurityId>, start: Positions, targets: Positions)
    requires Follow(events, ids, start, targets) && forall sid :: sid in ids ==> Delta(start, targets, sid) < 0
    ensures OnlySales(events)
  {
    hide Delta;
    forall e | e in events
      ensures e.kind == SellTrade
    {
      var p :| 0 <= p < |events| && events[p] == e;
      assert TradeFor(events[p], events[p].sid.value, Delta(start, targets, events[p].sid.value));
    }
  }

  /** When the cash held and the cash the filled sales raised, net of their costs, cover the printing
      purchases in full, every one of them reaches its target. */
  lemma FundedPurchasesAreFilled(m: Market, cfg: CostConfig, b: Book, targets: Positions, day: Date, marks: Marks)
    requires Sound(b) && NonNegativeTargets(targets) && DayMarks(m, day, marks)
    ensures Execute(m, cfg, b, targets, day).Success?
    ensures var r := Execute(m, cfg, b, targets, day).value;
            && b.events <= r.events
            && (PurchaseOutlay(m, cfg, b.positions, targets, day) <= b.cash + SaleCash(r.events[|b.events|..]) ==>
                  forall sid :: Delta(b.positions, targets, sid) > 0 && SameDayClose(m, sid, day).Some? ==>
                    Quantity(r.positions, sid) == Quantity(targets, sid))
  {
    hide *;
    var sells, buys := OrderedSells(m, cfg, b.positions, targets, day), OrderedBuys(b.positions, targets);
    var s := AfterSales(m, cfg, b, targets, day, marks);
    OrderLists(m, cfg, b.positions, targets, day);
    ListIsOutlay(m, cfg, b.positions, targets, day);
    ExecuteIs(m, cfg, b, targets, day);
    FillAllConcat(m, cfg, b, b.positions, targets, sells, buys, day);
    AfterTurn(m, cfg, s, b.positions, targets, buys, day, marks);
    CashRaisedBefore(b, s, Execute(m, cfg, b, targets, day).value);
    if ListOutlay(m, cfg, b.positions, targets, buys, day) <= s.cash {
      AllGranted(m, cfg, s, b.positions, targets, buys, day, marks);
    }
  }

  lemma BuysAreBuyIds(start: Positions, targets: Positions)
    ensures (set sid | sid in OrderedBuys(start, targets)) == BuyIds(start, targets)
  {
    Sorting.AscendingProperties(BuyIds(start, targets));
  }
}
