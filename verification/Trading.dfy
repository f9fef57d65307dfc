/** Executing target share counts at a day's close: sells first, then affordable purchases. */
module Trading {
  import opened Arithmetic
  import opened Domain
  import opened Markets
  import opened Costs
  import opened Ledger
  import Affordable
  import Sorting

  function Delta(positions: Positions, targets: Positions, sid: SecurityId): int {
    Quantity(targets, sid) - Quantity(positions, sid)
  }

  /** The day's own close; an order without one is skipped. */
  function SameDayClose(m: Market, sid: SecurityId, day: Date): Option<Positive> {
    var found := LastPrint(m, sid, day);
    if found.None? || found.value.date != day then None else Some(found.value.close)
  }

  function SellCosts(m: Market, cfg: CostConfig, sid: SecurityId, shares: int, price: Positive, day: Date): real
    requires shares > 0
  {
    Cost(cfg, sid, Costs.Sell, Affordable.Notional(price, shares), MedianTradedValue(m, sid, day)).Total()
  }

  function BuyCosts(m: Market, cfg: CostConfig, sid: SecurityId, shares: int, price: Positive, day: Date): real
    requires shares > 0
  {
    Cost(cfg, sid, Costs.Buy, Affordable.Notional(price, shares), MedianTradedValue(m, sid, day)).Total()
  }

  /** Cash raised by a sale net of its costs; zero without a same-day print. */
  function SellNet(m: Market, cfg: CostConfig, sid: SecurityId, shares: int, day: Date): real
    requires shares > 0
  {
    var close := SameDayClose(m, sid, day);
    if close.None? then 0.0
    else Times(close.value, shares as real) - SellCosts(m, cfg, sid, shares, close.value, day)
  }

  // ----- the order in which orders are filled

  datatype Ranked = Ranked(net: real, sid: SecurityId)

  /** Greatest net proceeds first; ties by id. */
  predicate NetFirst(a: Ranked, b: Ranked) {
    a.net > b.net || (a.net == b.net && a.sid <= b.sid)
  }

  function SellIds(positions: Positions, targets: Positions): set<SecurityId> {
    set sid | sid in positions.Keys + targets.Keys && Delta(positions, targets, sid) < 0
  }

  function BuyIds(positions: Positions, targets: Positions): set<SecurityId> {
    set sid | sid in positions.Keys + targets.Keys && Delta(positions, targets, sid) > 0
  }

  function RankedSells(m: Market, cfg: CostConfig, positions: Positions, targets: Positions, ids: seq<SecurityId>, day: Date)
    : (r: seq<Ranked>)
    requires forall sid :: sid in ids ==> Delta(positions, targets, sid) < 0
    ensures |r| == |ids| && forall i :: 0 <= i < |r| ==> r[i].sid == ids[i]
  {
    seq(|ids|, i requires 0 <= i < |ids| =>
      assert ids[i] in ids;
      Ranked(SellNet(m, cfg, ids[i], -Delta(positions, targets, ids[i]), day), ids[i]))
  }

  function Ids(ranked: seq<Ranked>): (r: seq<SecurityId>)
    ensures |r| == |ranked| && forall i :: 0 <= i < |r| ==> r[i] == ranked[i].sid
  {
    seq(|ranked|, i requires 0 <= i < |ranked| => ranked[i].sid)
  }

  function OrderedSells(m: Market, cfg: CostConfig, positions: Positions, targets: Positions, day: Date): seq<SecurityId> {
    var ids := Sorting.Ascending(SellIds(positions, targets));
    Sorting.AscendingProperties(SellIds(positions, targets));
    Ids(Sorting.SortBy(RankedSells(m, cfg, positions, targets, ids, day), NetFirst))
  }

  function OrderedBuys(positions: Positions, targets: Positions): seq<SecurityId> {
    Sorting.Ascending(BuyIds(positions, targets))
  }

  // ----- filling

  /** One order against the book as it stands. A sale that would leave cash negative is deferred;
      a purchase is cut to what cash affords. */
  function Fill(m: Market, cfg: CostConfig, b: Book, sid: SecurityId, delta: int, day: Date): Result<Book, LedgerError> {
    var close := SameDayClose(m, sid, day);
    if close.None? || delta == 0 then Success(b)
    else
      var price := close.value;
      if delta < 0 then
        var costs := SellCosts(m, cfg, sid, -delta, price, day);
        if b.cash + Times(price, (-delta) as real) - costs < 0.0 then Success(b)
        else
          CostsAreNonNegative(cfg, sid, Costs.Sell, Affordable.Notional(price, -delta), MedianTradedValue(m, sid, day));
          SellShares(b, sid, -delta, price, costs, day)
      else
        var shares := Affordable.AffordableShares(cfg, sid, price, MedianTradedValue(m, sid, day), b.cash, delta);
        if shares <= 0 then Success(b)
        else
          CostsAreNonNegative(cfg, sid, Costs.Buy, Affordable.Notional(price, shares), MedianTradedValue(m, sid, day));
          BuyShares(b, sid, shares, price, BuyCosts(m, cfg, sid, shares, price, day), day)
  }

  /** Fills in the given order; deltas are fixed by the positions before the first fill. */
  function FillAll(m: Market, cfg: CostConfig, b: Book, start: Positions, targets: Positions, ids: seq<SecurityId>, day: Date)
    : Result<Book, LedgerError>
    decreases |ids|
  {
    if ids == [] then Success(b)
    else
      match Fill(m, cfg, b, ids[0], Delta(start, targets, ids[0]), day)
      case Failure(e) => Failure(e)
      case Success(next) => FillAll(m, cfg, next, start, targets, ids[1..], day)
  }

  function Execute(m: Market, cfg: CostConfig, b: Book, targets: Positions, day: Date): Result<Book, LedgerError> {
    FillAll(m, cfg, b, b.positions, targets,
            OrderedSells(m, cfg, b.positions, targets, day) + OrderedBuys(b.positions, targets), day)
  }

  /** One order filled on the ledger object. */
  method FillOrder(m: Market, cfg: CostConfig, portfolio: Portfolio, sid: SecurityId, delta: int, day: Date)
    returns (r: Outcome<LedgerError>)
    modifies portfolio
    ensures Refines(r, portfolio.View(), Fill(m, cfg, old(portfolio.View()), sid, delta, day))
  {
    var close := SameDayClose(m, sid, day);
    if close.None? || delta == 0 {
      return Pass;
    }
    var price := close.value;
    var liquidity := MedianTradedValue(m, sid, day);
    if delta < 0 {
      var notional := Affordable.Notional(price, -delta);
      var costs := Cost(cfg, sid, Costs.Sell, notional, liquidity).Total();
      CostsAreNonNegative(cfg, sid, Costs.Sell, notional, liquidity);
      if portfolio.cash + notional - costs < 0.0 {
        return Pass;
      }
      r := portfolio.Sell(sid, -delta, price, costs, day);
    } else {
      var shares := Affordable.FindAffordableShares(cfg, sid, price, liquidity, portfolio.cash, delta);
      if shares <= 0 {
        return Pass;
      }
      var notional := Affordable.Notional(price, shares);
      var costs := Cost(cfg, sid, Costs.Buy, notional, liquidity).Total();
      CostsAreNonNegative(cfg, sid, Costs.Buy, notional, liquidity);
      r := portfolio.Buy(sid, shares, price, costs, day);
    }
  }

  /** The loop over ordered sells and then buys. */
  method ExecuteTargets(m: Market, cfg: CostConfig, portfolio: Portfolio, targets: Positions, day: Date)
    returns (r: Outcome<LedgerError>)
    modifies portfolio
    ensures Refines(r, portfolio.View(), Execute(m, cfg, old(portfolio.View()), targets, day))
  {
    hide Fill;
    hide Delta;
    var current := portfolio.positions;
    var ids := OrderedSells(m, cfg, current, targets, day) + OrderedBuys(current, targets);
    ghost var spec := Execute(m, cfg, portfolio.View(), targets, day);
    for i := 0 to |ids|
      invariant FillAll(m, cfg, portfolio.View(), current, targets, ids[i..], day) == spec
    {
      assert ids[i..][1..] == ids[i + 1..];
      var filled := FillOrder(m, cfg, portfolio, ids[i], Delta(current, targets, ids[i]), day);
      if filled.Fail? {
        return filled;
      }
    }
    return Pass;
  }

  // ----- the order lists name each security once

  ghost predicate Distinct(ids: seq<SecurityId>) {
    forall i, j :: 0 <= i < j < |ids| ==> ids[i] != ids[j]
  }

  lemma SortedIdsAreTheSame(ranked: seq<Ranked>)
    requires Distinct(Ids(ranked))
    ensures Distinct(Ids(Sorting.SortBy(ranked, NetFirst)))
    ensures forall sid :: sid in Ids(Sorting.SortBy(ranked, NetFirst)) <==> sid in Ids(ranked)
  {
    var sorted := Sorting.SortBy(ranked, NetFirst);
    Sorting.SameElements(sorted, ranked);
    forall sid
      ensures sid in Ids(sorted) <==> sid in Ids(ranked)
    {
      if sid in Ids(sorted) {
        var i :| 0 <= i < |sorted| && sorted[i].sid == sid;
        assert sorted[i] in sorted;
        var j :| 0 <= j < |ranked| && ranked[j] == sorted[i];
        assert Ids(ranked)[j] == sid;
      }
      if sid in Ids(ranked) {
        var i :| 0 <= i < |ranked| && ranked[i].sid == sid;
        assert ranked[i] in ranked;
        var j :| 0 <= j < |sorted| && sorted[j] == ranked[i];
        assert Ids(sorted)[j] == sid;
      }
    }
    assert Sorting.NoDuplicates(ranked) by {
      assert forall i, j :: 0 <= i < j < |ranked| ==> Ids(ranked)[i] != Ids(ranked)[j];
    }
    Sorting.RearrangedNoDuplicates(sorted, ranked);
    forall i, j | 0 <= i < j < |sorted|
      ensures sorted[i].sid != sorted[j].sid
    {
      assert sorted[i] in sorted && sorted[j] in sorted;
      var k :| 0 <= k < |ranked| && ranked[k] == sorted[i];
      var l :| 0 <= l < |ranked| && ranked[l] == sorted[j];
      assert k != l && Ids(ranked)[k] != Ids(ranked)[l];
    }
  }

  /** The net proceeds each sale is ranked by. */
  ghost predicate RankOf(m: Market, cfg: CostConfig, positions: Positions, targets: Positions, day: Date, r: Ranked) {
    Delta(positions, targets, r.sid) < 0 && r.net == SellNet(m, cfg, r.sid, -Delta(positions, targets, r.sid), day)
  }

  /** Sales come by falling net proceeds, ties by id, so those that raise cash precede those that cost it. */
  lemma SalesByProceeds(m: Market, cfg: CostConfig, positions: Positions, targets: Positions, day: Date) returns (ranked: seq<Ranked>)
    ensures OrderedSells(m, cfg, positions, targets, day) == Ids(ranked)
    ensures Sorting.Sorted(ranked, NetFirst)
    ensures forall r :: r in ranked ==> RankOf(m, cfg, positions, targets, day, r)
  {
    var ids := Sorting.Ascending(SellIds(positions, targets));
    Sorting.AscendingProperties(SellIds(positions, targets));
    assert forall sid :: sid in ids ==> Delta(positions, targets, sid) < 0;
    var all := RankedSells(m, cfg, positions, targets, ids, day);
    ranked := Sorting.SortBy(all, NetFirst);
    NetFirstSorts(all);
    Sorting.SameElements(ranked, all);
    hide *;
    forall r | r in ranked
      ensures RankOf(m, cfg, positions, targets, day, r)
    {
      RankedFrom(m, cfg, positions, targets, ids, day, r);
    }
  }

  lemma NetFirstSorts(ranked: seq<Ranked>)
    ensures Sorting.Sorted(Sorting.SortBy(ranked, NetFirst), NetFirst)
  {
    Sorting.SortedSortBy(ranked, NetFirst);
  }

  lemma RankedFrom(m: Market, cfg: CostConfig, positions: Positions, targets: Positions, ids: seq<SecurityId>, day: Date, r: Ranked)
    requires forall sid :: sid in ids ==> Delta(positions, targets, sid) < 0
    requires r in RankedSells(m, cfg, positions, targets, ids, day)
    ensures RankOf(m, cfg, positions, targets, day, r)
  {
    var k :| 0 <= k < |ids| && RankedSells(m, cfg, positions, targets, ids, day)[k] == r;
    assert ids[k] in ids;
  }

  /** Every security with an order appears exactly once among the fills. */
  lemma OrdersNamedOnce(m: Market, cfg: CostConfig, positions: Positions, targets: Positions, day: Date)
    ensures var ids := OrderedSells(m, cfg, positions, targets, day) + OrderedBuys(positions, targets);
            && Distinct(ids)
            && (forall sid :: sid in ids <==> Delta(positions, targets, sid) != 0)
  {
    var sells := Sorting.Ascending(SellIds(positions, targets));
    Sorting.AscendingProperties(SellIds(positions, targets));
    Sorting.AscendingProperties(BuyIds(positions, targets));
    var ranked := RankedSells(m, cfg, positions, targets, sells, day);
    assert Ids(ranked) == sells;
    SortedIdsAreTheSame(ranked);
    var os, ob := OrderedSells(m, cfg, positions, targets, day), OrderedBuys(positions, targets);
    forall sid
      ensures sid in os + ob <==> Delta(positions, targets, sid) != 0
    {
      assert sid in os <==> sid in SellIds(positions, targets);
      assert sid in ob <==> sid in BuyIds(positions, targets);
    }
    forall i, j | 0 <= i < j < |os + ob|
      ensures (os + ob)[i] != (os + ob)[j]
    {
      if i < |os| <= j {
        assert (os + ob)[i] in os && (os + ob)[j] in ob;
      }
    }
  }

  // ----- safety and conservation

  ghost predicate NonNegativeTargets(targets: Positions) {
    forall sid :: sid in targets ==> targets[sid] >= 0
  }

  /** Marks that give every traded or held security the last close known on the day. */
  ghost predicate DayMarks(m: Market, day: Date, marks: Marks) {
    forall sid :: LastPrint(m, sid, day).Some? ==> sid in marks && marks[sid] == LastPrint(m, sid, day).value.close
  }

  function CostTotal(events: seq<LedgerEvent>): real {
    if events == [] then 0.0 else events[0].costs + CostTotal(events[1..])
  }

  ghost predicate TradeOf(e: LedgerEvent, sid: SecurityId, price: real, day: Date) {
    && e.sid == Some(sid) && e.price == Some(price) && e.on == day
    && if e.quantityDelta > 0
       then e.kind == BuyTrade && e.cashDelta == -(Times(price, e.quantityDelta as real) + e.costs)
       else e.kind == SellTrade && e.cashDelta == Times(price, (-e.quantityDelta) as real) - e.costs
  }

  /** Where one fill may leave a holding: a sale is complete or deferred, a purchase is partial. */
  ghost predicate Reached(before: int, after: int, delta: int) {
    if delta < 0 then after == before || after == before + delta else before <= after <= before + delta
  }

  /** The costs a trade of `e`'s size is charged by the cost model that day. */
  ghost predicate ChargedByModel(m: Market, cfg: CostConfig, e: LedgerEvent, sid: SecurityId, price: Positive, day: Date) {
    if e.quantityDelta < 0 then e.costs == SellCosts(m, cfg, sid, -e.quantityDelta, price, day)
    else e.quantityDelta > 0 && e.costs == BuyCosts(m, cfg, sid, e.quantityDelta, price, day)
  }

  ghost predicate AppendsTrade(m: Market, cfg: CostConfig, b: Book, r: Book, sid: SecurityId, day: Date) {
    && |r.events| == |b.events| + 1 && r.events[..|b.events|] == b.events
    && SameDayClose(m, sid, day).Some?
    && TradeOf(r.events[|b.events|], sid, SameDayClose(m, sid, day).value, day)
    && ChargedByModel(m, cfg, r.events[|b.events|], sid, SameDayClose(m, sid, day).value, day)
  }

  ghost predicate SameHolding(a: Positions, b: Positions, sid: SecurityId) {
    Quantity(a, sid) == Quantity(b, sid) && (sid in a <==> sid in b)
  }

  /** A sale that can be filled and whose proceeds cover its costs. */
  ghost predicate Pays(m: Market, cfg: CostConfig, sid: SecurityId, delta: int, day: Date) {
    delta < 0 && SameDayClose(m, sid, day).Some? && SellNet(m, cfg, sid, -delta, day) >= 0.0
  }

  /** What one fill may do: nothing, or append one trade at the day's close, charged by the cost
      model, that moves the one security toward its target. */
  ghost predicate Filled(m: Market, cfg: CostConfig, b: Book, r: Book, sid: SecurityId, delta: int, day: Date) {
    && Sound(r)
    && (forall s :: s != sid ==> SameHolding(r.positions, b.positions, s))
    && Reached(Quantity(b.positions, sid), Quantity(r.positions, sid), delta)
    && (r == b || AppendsTrade(m, cfg, b, r, sid, day))
    && (Pays(m, cfg, sid, delta, day) ==> Quantity(r.positions, sid) == Quantity(b.positions, sid) + delta)
  }

  ghost function ValueOf(b: Book, marks: Marks): real {
    b.cash + Worth(b.positions, marks)
  }

  ghost predicate Conserves(b: Book, r: Book, marks: Marks) {
    && b.events <= r.events
    && ValueOf(r, marks) == ValueOf(b, marks) - CostTotal(r.events[|b.events|..])
  }

  lemma TradeConserves(b: Book, e: LedgerEvent, sid: SecurityId, price: real, marks: Marks)
    requires e.sid == Some(sid) && sid in marks && marks[sid] == price && e.quantityDelta != 0
    requires e.cashDelta == -Times(price, e.quantityDelta as real) - e.costs
    requires Record(b, e).Success?
    ensures Conserves(b, Record(b, e).value, marks)
  {
    RecordValue(b, e, marks);
    var r := Record(b, e).value;
    assert r.events[|b.events|..] == [e];
    assert CostTotal([e]) == e.costs;
  }

  lemma SellIsSafe(m: Market, cfg: CostConfig, b: Book, sid: SecurityId, shares: int, price: Positive, costs: NonNegative,
                   day: Date, marks: Marks)
    requires Sound(b) && 0 < shares <= Quantity(b.positions, sid)
    requires b.cash + Times(price, shares as real) - costs >= 0.0
    requires SameDayClose(m, sid, day) == Some(price) && costs == SellCosts(m, cfg, sid, shares, price, day)
    requires DayMarks(m, day, marks)
    ensures var r := SellShares(b, sid, shares, price, costs, day);
            r.Success? && Filled(m, cfg, b, r.value, sid, -shares, day) && Conserves(b, r.value, marks)
  {
    hide Times;
    hide SellCosts;
    hide LastPrint;
    var e := LedgerEvent(day, SellTrade, Some(sid), -shares, Times(price, shares as real) - costs, Some(price), costs);
    RecordKeepsSound(b, e);
    TimesNegated(price, shares);
    TradeConserves(b, e, sid, price, marks);
  }

  lemma BuyFills(m: Market, cfg: CostConfig, b: Book, sid: SecurityId, delta: int, shares: int, price: Positive,
                 costs: NonNegative, day: Date)
    requires Sound(b) && 0 < shares <= delta
    requires Times(price, shares as real) + costs <= b.cash
    requires SameDayClose(m, sid, day) == Some(price) && costs == BuyCosts(m, cfg, sid, shares, price, day)
    ensures var r := BuyShares(b, sid, shares, price, costs, day);
            r.Success? && Filled(m, cfg, b, r.value, sid, delta, day)
  {
    hide Times;
    hide BuyCosts;
    hide SameDayClose;
    SoundIsSolvent(b);
    hide Sound;
    RecordKeepsSound(b, LedgerEvent(day, BuyTrade, Some(sid), shares, -(Times(price, shares as real) + costs), Some(price), costs));
  }

  lemma MarkOfDay(m: Market, sid: SecurityId, price: Positive, day: Date, marks: Marks)
    requires SameDayClose(m, sid, day) == Some(price) && DayMarks(m, day, marks)
    ensures sid in marks && marks[sid] == price
  {
  }

  lemma BuyIsRecord(b: Book, sid: SecurityId, shares: int, price: Positive, costs: NonNegative, day: Date)
    requires shares > 0
    ensures BuyShares(b, sid, shares, price, costs, day)
         == Record(b, LedgerEvent(day, BuyTrade, Some(sid), shares, -(Times(price, shares as real) + costs), Some(price), costs))
    ensures -(Times(price, shares as real) + costs) == -Times(price, shares as real) - costs
  {
  }

  lemma BuyIsSafe(m: Market, cfg: CostConfig, b: Book, sid: SecurityId, delta: int, shares: int, price: Positive,
                  costs: NonNegative, day: Date, marks: Marks)
    requires Sound(b) && 0 < shares <= delta
    requires Times(price, shares as real) + costs <= b.cash
    requires SameDayClose(m, sid, day) == Some(price) && costs == BuyCosts(m, cfg, sid, shares, price, day)
    requires DayMarks(m, day, marks)
    ensures var r := BuyShares(b, sid, shares, price, costs, day);
            r.Success? && Filled(m, cfg, b, r.value, sid, delta, day) && Conserves(b, r.value, marks)
  {
    hide *;
    MarkOfDay(m, sid, price, day, marks);
    BuyIsRecord(b, sid, shares, price, costs, day);
    BuyFills(m, cfg, b, sid, delta, shares, price, costs, day);
    TradeConserves(b, LedgerEvent(day, BuyTrade, Some(sid), shares, -(Times(price, shares as real) + costs), Some(price), costs),
                   sid, price, marks);
  }

  lemma NoFill(m: Market, cfg: CostConfig, b: Book, sid: SecurityId, delta: int, day: Date, marks: Marks)
    requires Sound(b) && !Pays(m, cfg, sid, delta, day)
    ensures Filled(m, cfg, b, b, sid, delta, day) && Conserves(b, b, marks)
  {
    assert b.events[|b.events|..] == [];
  }

  lemma SellFillIsSafe(m: Market, cfg: CostConfig, b: Book, sid: SecurityId, delta: int, day: Date, marks: Marks)
    requires Sound(b) && Quantity(b.positions, sid) + delta >= 0 && DayMarks(m, day, marks)
    requires SameDayClose(m, sid, day).Some? && delta < 0
    ensures var r := Fill(m, cfg, b, sid, delta, day);
            r.Success? && Filled(m, cfg, b, r.value, sid, delta, day) && Conserves(b, r.value, marks)
  {
    SoundIsSolvent(b);
    var close := SameDayClose(m, sid, day).value;
    var costs := SellCosts(m, cfg, sid, -delta, close, day);
    CostsAreNonNegative(cfg, sid, Costs.Sell, Affordable.Notional(close, -delta), MedianTradedValue(m, sid, day));
    if b.cash + Times(close, (-delta) as real) - costs >= 0.0 {
      SellIsSafe(m, cfg, b, sid, -delta, close, costs, day, marks);
    } else {
      assert !Pays(m, cfg, sid, delta, day);
      NoFill(m, cfg, b, sid, delta, day, marks);
    }
    hide Filled;
    hide Conserves;
    hide DayMarks;
    hide Sound;
    hide SameDayClose;
    hide Times;
  }

  lemma OutlayParts(m: Market, cfg: CostConfig, sid: SecurityId, shares: int, price: Positive, day: Date)
    requires shares > 0
    ensures Affordable.Outlay(cfg, sid, price, MedianTradedValue(m, sid, day), shares)
         == Times(price, shares as real) + BuyCosts(m, cfg, sid, shares, price, day)
  {
  }

  /** What filling a purchase comes to. */
  lemma PurchaseFilled(m: Market, cfg: CostConfig, b: Book, sid: SecurityId, delta: int, day: Date)
    returns (price: Positive, shares: int)
    requires SameDayClose(m, sid, day).Some? && delta > 0
    ensures SameDayClose(m, sid, day) == Some(price) && shares <= delta
    ensures shares <= 0 ==> Fill(m, cfg, b, sid, delta, day) == Success(b)
    ensures shares > 0 ==>
              && BuyCosts(m, cfg, sid, shares, price, day) >= 0.0
              && Times(price, shares as real) + BuyCosts(m, cfg, sid, shares, price, day) <= b.cash
              && Fill(m, cfg, b, sid, delta, day) == BuyShares(b, sid, shares, price, BuyCosts(m, cfg, sid, shares, price, day), day)
    ensures !Pays(m, cfg, sid, delta, day)
  {
    hide SameDayClose;
    hide MedianTradedValue;
    hide Affordable.AffordableShares;
    hide Cost;
    hide BuyShares;
    price := SameDayClose(m, sid, day).value;
    var liquidity := MedianTradedValue(m, sid, day);
    shares := Affordable.AffordableShares(cfg, sid, price, liquidity, b.cash, delta);
    Affordable.AffordableSharesFit(cfg, sid, price, liquidity, b.cash, delta);
    if shares > 0 {
      CostsAreNonNegative(cfg, sid, Costs.Buy, Affordable.Notional(price, shares), liquidity);
      OutlayParts(m, cfg, sid, shares, price, day);
      hide Affordable.Outlay;
      hide Times;
    }
  }

  lemma BuyFillIsSafe(m: Market, cfg: CostConfig, b: Book, sid: SecurityId, delta: int, day: Date, marks: Marks)
    requires Sound(b) && DayMarks(m, day, marks)
    requires SameDayClose(m, sid, day).Some? && delta > 0
    ensures var r := Fill(m, cfg, b, sid, delta, day);
            r.Success? && Filled(m, cfg, b, r.value, sid, delta, day) && Conserves(b, r.value, marks)
  {
    hide *;
    var price, shares := PurchaseFilled(m, cfg, b, sid, delta, day);
    if shares > 0 {
      BuyIsSafe(m, cfg, b, sid, delta, shares, price, BuyCosts(m, cfg, sid, shares, price, day), day, marks);
    } else {
      NoFill(m, cfg, b, sid, delta, day, marks);
    }
  }

  /** A fill never fails when the holding covers the sale, costs the book its trade costs only, and
      always completes a sale whose proceeds cover its costs. */
  lemma FillIsSafe(m: Market, cfg: CostConfig, b: Book, sid: SecurityId, delta: int, day: Date, marks: Marks)
    requires Sound(b) && Quantity(b.positions, sid) + delta >= 0 && DayMarks(m, day, marks)
    ensures var r := Fill(m, cfg, b, sid, delta, day);
            r.Success? && Filled(m, cfg, b, r.value, sid, delta, day) && Conserves(b, r.value, marks)
  {
    if SameDayClose(m, sid, day).None? || delta == 0 {
      NoFill(m, cfg, b, sid, delta, day, marks);
      hide Filled;
      hide Conserves;
    } else {
      hide *;
      if delta < 0 {
        SellFillIsSafe(m, cfg, b, sid, delta, day, marks);
      } else {
        BuyFillIsSafe(m, cfg, b, sid, delta, day, marks);
      }
    }
  }

  /** What a run of fills leaves for one security. */
  ghost predicate Settled(m: Market, cfg: CostConfig, start: Positions, b: Positions, r: Positions, targets: Positions,
                          sid: SecurityId, ordered: bool, day: Date) {
    && (!ordered || SameDayClose(m, sid, day).None? ==> SameHolding(r, b, sid))
    && (ordered ==> Reached(Quantity(start, sid), Quantity(r, sid), Delta(start, targets, sid)))
    && (ordered && Pays(m, cfg, sid, Delta(start, targets, sid), day) ==>
          Quantity(r, sid) == Quantity(start, sid) + Delta(start, targets, sid))
  }

  ghost predicate OnlyChargedTrades(m: Market, cfg: CostConfig, events: seq<LedgerEvent>, day: Date) {
    forall e :: e in events ==>
      && e.sid.Some? && SameDayClose(m, e.sid.value, day).Some?
      && TradeOf(e, e.sid.value, SameDayClose(m, e.sid.value, day).value, day)
      && ChargedByModel(m, cfg, e, e.sid.value, SameDayClose(m, e.sid.value, day).value, day)
  }

  lemma {:induction false} CostTotalConcat(a: seq<LedgerEvent>, b: seq<LedgerEvent>)
    ensures CostTotal(a + b) == CostTotal(a) + CostTotal(b)
  {
    if a == [] {
      assert a + b == b;
    } else {
      assert (a + b)[1..] == a[1..] + b;
      CostTotalConcat(a[1..], b);
    }
  }

  lemma ConservesChain(a: Book, b: Book, c: Book, marks: Marks)
    requires Conserves(a, b, marks) && Conserves(b, c, marks)
    ensures Conserves(a, c, marks)
    ensures c.events[|a.events|..] == b.events[|a.events|..] + c.events[|b.events|..]
  {
    assert c.events[|a.events|..] == b.events[|a.events|..] + c.events[|b.events|..];
    CostTotalConcat(b.events[|a.events|..], c.events[|b.events|..]);
  }

  lemma FilledNewEvents(m: Market, cfg: CostConfig, b: Book, r: Book, sid: SecurityId, delta: int, day: Date)
    requires Filled(m, cfg, b, r, sid, delta, day)
    ensures |b.events| <= |r.events| && OnlyChargedTrades(m, cfg, r.events[|b.events|..], day)
  {
    if r == b {
      assert r.events[|b.events|..] == [];
    } else {
      assert r.events[|b.events|..] == [r.events[|b.events|]];
    }
  }

  lemma ChargedTradesConcat(m: Market, cfg: CostConfig, a: seq<LedgerEvent>, b: seq<LedgerEvent>, day: Date)
    requires OnlyChargedTrades(m, cfg, a, day) && OnlyChargedTrades(m, cfg, b, day)
    ensures OnlyChargedTrades(m, cfg, a + b, day)
  {
  }

  lemma RestUntouched(m: Market, cfg: CostConfig, b: Book, next: Book, start: Positions, ids: seq<SecurityId>, delta: int, day: Date)
    requires ids != [] && Distinct(ids) && Filled(m, cfg, b, next, ids[0], delta, day)
    requires forall sid :: sid in ids ==> SameHolding(b.positions, start, sid)
    ensures Sound(next) && Distinct(ids[1..])
    ensures forall sid :: sid in ids[1..] ==> SameHolding(next.positions, start, sid)
  {
    assert forall s :: s in ids[1..] ==> s in ids && s != ids[0] && SameHolding(next.positions, b.positions, s);
  }

  lemma {:induction false} FillAllIsSafe(m: Market, cfg: CostConfig, b: Book, start: Positions, targets: Positions,
                                         ids: seq<SecurityId>, day: Date, marks: Marks)
    requires Sound(b) && Distinct(ids) && NonNegativeTargets(targets) && DayMarks(m, day, marks)
    requires forall sid :: sid in ids ==> SameHolding(b.positions, start, sid)
    ensures FillAll(m, cfg, b, start, targets, ids, day).Success?
    ensures var r := FillAll(m, cfg, b, start, targets, ids, day).value;
            && Sound(r) && Conserves(b, r, marks)
            && OnlyChargedTrades(m, cfg, r.events[|b.events|..], day)
            && forall sid :: Settled(m, cfg, start, b.positions, r.positions, targets, sid, sid in ids, day)
    decreases |ids|
  {
    if ids == [] {
      assert b.events[|b.events|..] == [];
    } else {
      hide Pays;
      var sid, rest := ids[0], ids[1..];
      var delta := Delta(start, targets, sid);
      assert sid in ids && SameHolding(b.positions, start, sid);
      FillIsSafe(m, cfg, b, sid, delta, day, marks);
      var next := Fill(m, cfg, b, sid, delta, day).value;
      hide Fill;
      hide AppendsTrade;
      hide OnlyChargedTrades;
      FilledNewEvents(m, cfg, b, next, sid, delta, day);
      RestUntouched(m, cfg, b, next, start, ids, delta, day);
      hide Filled;
      hide SameHolding;
      hide Settled;
      hide Conserves;
      hide DayMarks;
      hide Sound;
      FillAllIsSafe(m, cfg, next, start, targets, rest, day, marks);
      var r := FillAll(m, cfg, next, start, targets, rest, day).value;
      ConservesChain(b, next, r, marks);
      ChargedTradesConcat(m, cfg, next.events[|b.events|..], r.events[|next.events|..], day);
      forall s
        ensures Settled(m, cfg, start, b.positions, r.positions, targets, s, s in ids, day)
      {
        SettledAfter(m, cfg, start, b, next, r.positions, targets, ids, s, day);
      }
    }
  }

  lemma SettledAfter(m: Market, cfg: CostConfig, start: Positions, b: Book, next: Book, after: Positions, targets: Positions,
                     ids: seq<SecurityId>, sid: SecurityId, day: Date)
    requires ids != [] && Distinct(ids)
    requires Filled(m, cfg, b, next, ids[0], Delta(start, targets, ids[0]), day)
    requires SameHolding(b.positions, start, ids[0])
    requires Settled(m, cfg, start, next.positions, after, targets, sid, sid in ids[1..], day)
    ensures Settled(m, cfg, start, b.positions, after, targets, sid, sid in ids, day)
  {
    assert sid in ids <==> sid == ids[0] || sid in ids[1..];
    assert ids[0] !in ids[1..];
    assert sid != ids[0] ==> SameHolding(next.positions, b.positions, sid);
  }

  /** Rebalancing to any non-negative targets succeeds from a sound book. Value at the day's marks
      falls by exactly the costs of the day's trades, each charged by the cost model; every holding
      ends between its old count and its target (a sale whole or deferred); every sale whose proceeds
      cover its costs goes through; a security without a same-day print is untouched; and the book
      stays sound. */
  lemma RebalanceConservesValue(m: Market, cfg: CostConfig, b: Book, targets: Positions, day: Date, marks: Marks)
    requires Sound(b) && NonNegativeTargets(targets) && DayMarks(m, day, marks)
    ensures Execute(m, cfg, b, targets, day).Success?
    ensures var r := Execute(m, cfg, b, targets, day).value;
            && Sound(r) && Conserves(b, r, marks)
            && OnlyChargedTrades(m, cfg, r.events[|b.events|..], day)
            && forall sid :: Reached(Quantity(b.positions, sid), Quantity(r.positions, sid), Delta(b.positions, targets, sid))
                             && (SameDayClose(m, sid, day).None? ==> SameHolding(r.positions, b.positions, sid))
                             && (Pays(m, cfg, sid, Delta(b.positions, targets, sid), day) ==>
                                   Quantity(r.positions, sid) == Quantity(targets, sid))
  {
    var ids := OrderedSells(m, cfg, b.positions, targets, day) + OrderedBuys(b.positions, targets);
    OrdersNamedOnce(m, cfg, b.positions, targets, day);
    FillAllIsSafe(m, cfg, b, b.positions, targets, ids, day, marks);
    var r := FillAll(m, cfg, b, b.positions, targets, ids, day).value;
    hide OrderedSells;
    hide OrderedBuys;
    forall sid
      ensures Reached(Quantity(b.positions, sid), Quantity(r.positions, sid), Delta(b.positions, targets, sid))
      ensures SameDayClose(m, sid, day).None? ==> SameHolding(r.positions, b.positions, sid)
      ensures Pays(m, cfg, sid, Delta(b.positions, targets, sid), day) ==> Quantity(r.positions, sid) == Quantity(targets, sid)
    {
      assert Settled(m, cfg, b.positions, b.positions, r.positions, targets, sid, sid in ids, day);
    }
  }
}
