/** The dataset object: per-security indexes built once, and lookups that share one list of dates.

    The closes, the traded values and the bars of a security are kept in three lists sorted by
    different keys; one list of dates positions all three. */
module MarketIndex {
  import opened Domain
  import opened Markets
  import Sorting

  // ----- one list of dates positions every series of the security

  lemma {:induction false} CountThroughDates(s: seq<Bar>, day: Date)
    ensures CountThrough(Dates(s), day) == BisectRight(s, day)
  {
    if s != [] {
      assert Dates(s)[1..] == Dates(s[1..]);
      CountThroughDates(s[1..], day);
    }
  }

  lemma {:induction false} CountBeforeDates(s: seq<Bar>, day: Date)
    ensures CountBefore(Dates(s), day) == BisectLeft(s, day)
    ensures BisectLeft(s, day) == BisectRight(s, day - 1)
  {
    if s != [] {
      assert Dates(s)[1..] == Dates(s[1..]);
      CountBeforeDates(s[1..], day);
    }
  }

  lemma {:induction false} UpToAround(a: seq<Bar>, x: Bar, b: seq<Bar>, day: Date)
    ensures |UpTo(a + [x] + b, day)| == |UpTo(a + b, day)| + (if x.date <= day then 1 else 0)
  {
    if a == [] {
      assert [] + [x] + b == [x] + b && [] + b == b;
    } else {
      assert (a + [x] + b)[1..] == a[1..] + [x] + b;
      assert (a + b)[1..] == a[1..] + b;
      UpToAround(a[1..], x, b, day);
    }
  }

  /** How many bars lie on or before a day does not depend on their order. */
  lemma {:induction false} RearrangedUpTo(s: seq<Bar>, t: seq<Bar>, day: Date)
    requires multiset(s) == multiset(t)
    ensures |UpTo(s, day)| == |UpTo(t, day)|
  {
    if s == [] {
      assert |multiset(t)| == 0;
    } else {
      var a, b := Sorting.TakeOut(s, t);
      RearrangedUpTo(s[1..], a + b, day);
      UpToAround(a, s[0], b, day);
    }
  }

  /** Bars sorted by date and close, by date and traded value, or by date alone have the same number
      of entries through any day, so a position found in one list of dates is right in all three. */
  lemma OnePositionForAll(bars: seq<Bar>, sid: SecurityId, day: Date)
    ensures BisectRight(Traded(bars, sid), day) == BisectRight(Closes(bars, sid), day)
    ensures BisectRight(Panel(bars, sid), day) == BisectRight(Closes(bars, sid), day)
    ensures BisectLeft(Panel(bars, sid), day) == BisectLeft(Closes(bars, sid), day)
  {
    OrdersAreDateFirst();
    var own := BarsOf(bars, sid);
    SeriesDateOrdered(own, CloseLeq);
    SeriesDateOrdered(own, TradedLeq);
    SeriesDateOrdered(own, DateLeq);
    var c, t, p := Closes(bars, sid), Traded(bars, sid), Panel(bars, sid);
    forall d | d == day || d == day - 1
      ensures BisectRight(t, d) == BisectRight(c, d) == BisectRight(p, d)
    {
      BisectRightIsUpTo(c, d);
      BisectRightIsUpTo(t, d);
      BisectRightIsUpTo(p, d);
      RearrangedUpTo(t, c, d);
      RearrangedUpTo(p, c, d);
    }
    CountBeforeDates(p, day);
    CountBeforeDates(c, day);
  }

  // ----- building the indexes

  type Index = map<SecurityId, seq<Bar>>

  function Entry(index: Index, sid: SecurityId): seq<Bar> {
    if sid in index then index[sid] else []
  }

  lemma {:induction false} ActionsOfLast(actions: seq<Action>, a: Action, sid: SecurityId)
    ensures ActionsOf(actions + [a], sid) == if a.sid == sid then ActionsOf(actions, sid) + [a] else ActionsOf(actions, sid)
  {
    if actions == [] {
      assert actions + [a] == [a];
    } else {
      assert (actions + [a])[1..] == actions[1..] + [a];
      ActionsOfLast(actions[1..], a, sid);
    }
  }

  /** Groups bars by security in input order. */
  method GroupBars(bars: seq<Bar>) returns (index: Index)
    ensures forall sid :: Entry(index, sid) == BarsOf(bars, sid)
    ensures forall sid :: sid in index ==> index[sid] != []
  {
    index := map[];
    for i := 0 to |bars|
      invariant forall sid :: Entry(index, sid) == BarsOf(bars[..i], sid)
      invariant forall sid :: sid in index ==> index[sid] != []
    {
      var b := bars[i];
      ghost var before := index;
      assert bars[..i + 1] == bars[..i] + [b];
      index := index[b.sid := Entry(index, b.sid) + [b]];
      forall sid
        ensures Entry(index, sid) == BarsOf(bars[..i + 1], sid)
      {
        BarsOfAppend(bars[..i], b, sid);
        assert Entry(before, sid) == BarsOf(bars[..i], sid);
      }
    }
    assert bars[..|bars|] == bars;
  }

  method GroupActions(actions: seq<Action>) returns (index: map<SecurityId, seq<Action>>)
    ensures forall sid :: ActionsOf(actions, sid) == if sid in index then index[sid] else []
  {
    index := map[];
    for i := 0 to |actions|
      invariant forall sid :: ActionsOf(actions[..i], sid) == if sid in index then index[sid] else []
    {
      var a := actions[i];
      ghost var before := index;
      assert actions[..i + 1] == actions[..i] + [a];
      index := index[a.sid := (if a.sid in index then index[a.sid] else []) + [a]];
      forall sid
        ensures ActionsOf(actions[..i + 1], sid) == if sid in index then index[sid] else []
      {
        ActionsOfLast(actions[..i], a, sid);
        assert ActionsOf(actions[..i], sid) == if sid in before then before[sid] else [];
      }
    }
    assert actions[..|actions|] == actions;
  }

  /** Sorts every series of an index in place. */
  method SortSeries(grouped: Index, leq: (Bar, Bar) -> bool) returns (index: Index)
    ensures SortedIndex(index, grouped, leq)
  {
    index := map sid | sid in grouped :: Sorting.SortBy(grouped[sid], leq);
  }

  /** Each index entry is the sorted series of its security, and the lists of dates and of traded
      values run parallel to the closes and to the traded bars. */
  ghost predicate Built(market: Market, closes: Index, dates: map<SecurityId, seq<Date>>, traded: map<SecurityId, seq<real>>,
                        barsBySid: Index, actionsBySid: map<SecurityId, seq<Action>>) {
    && closes.Keys == dates.Keys == traded.Keys == barsBySid.Keys
    && (forall sid :: Entry(closes, sid) == Closes(market.bars, sid))
    && (forall sid :: sid in dates ==> dates[sid] == Dates(Closes(market.bars, sid)) && dates[sid] != [])
    && (forall sid :: sid in traded ==> traded[sid] == Values(Traded(market.bars, sid)))
    && (forall sid :: Entry(barsBySid, sid) == Panel(market.bars, sid))
    && (forall sid :: ActionsOf(market.actions, sid) == if sid in actionsBySid then actionsBySid[sid] else [])
  }

  lemma SortedEntry(market: Market, grouped: Index, index: Index, leq: (Bar, Bar) -> bool, sid: SecurityId)
    requires Entry(grouped, sid) == BarsOf(market.bars, sid)
    requires index.Keys == grouped.Keys && (sid in index ==> index[sid] == Sorting.SortBy(grouped[sid], leq))
    ensures Entry(index, sid) == Sorting.SortBy(BarsOf(market.bars, sid), leq)
  {
  }

  function DatesIndex(index: Index): map<SecurityId, seq<Date>> {
    map sid | sid in index :: Dates(index[sid])
  }

  function TradedIndex(index: Index): map<SecurityId, seq<real>> {
    map sid | sid in index :: Values(index[sid])
  }

  predicate SortedIndex(index: Index, grouped: Index, leq: (Bar, Bar) -> bool) {
    index.Keys == grouped.Keys && forall sid :: sid in index ==> index[sid] == Sorting.SortBy(grouped[sid], leq)
  }

  lemma BuiltFrom(market: Market, grouped: Index, byClose: Index, byTraded: Index, byDate: Index,
                  byAction: map<SecurityId, seq<Action>>)
    requires forall sid :: Entry(grouped, sid) == BarsOf(market.bars, sid)
    requires forall sid :: sid in grouped ==> grouped[sid] != []
    requires SortedIndex(byClose, grouped, CloseLeq) && SortedIndex(byTraded, grouped, TradedLeq) && SortedIndex(byDate, grouped, DateLeq)
    requires forall sid :: ActionsOf(market.actions, sid) == if sid in byAction then byAction[sid] else []
    ensures Built(market, byClose, DatesIndex(byClose), TradedIndex(byTraded), byDate, byAction)
  {
    hide Dates;
    hide Values;
    hide Sorting.SortBy;
    hide BarsOf;
    hide ActionsOf;
    forall sid
      ensures Entry(byClose, sid) == Closes(market.bars, sid)
      ensures Entry(byDate, sid) == Panel(market.bars, sid)
      ensures Entry(byTraded, sid) == Traded(market.bars, sid)
      ensures sid in grouped ==> Closes(market.bars, sid) != []
    {
      assert Entry(grouped, sid) == BarsOf(market.bars, sid);
      SortedEntry(market, grouped, byClose, CloseLeq, sid);
      SortedEntry(market, grouped, byTraded, TradedLeq, sid);
      SortedEntry(market, grouped, byDate, DateLeq, sid);
    }
  }

  lemma WindowValues(s: seq<Bar>, from: nat, to: nat)
    requires from <= to <= |s|
    ensures Values(s)[from..to] == Values(s[from..to])
  {
  }

  class MarketData {
    const market: Market
    var closes: Index
    var dates: map<SecurityId, seq<Date>>
    var traded: map<SecurityId, seq<real>>
    var barsBySid: Index
    var actionsBySid: map<SecurityId, seq<Action>>

    ghost predicate Valid()
      reads this
    {
      Built(market, closes, dates, traded, barsBySid, actionsBySid)
    }

    constructor (market: Market)
      ensures Valid() && this.market == market
    {
      this.market := market;
      var grouped := GroupBars(market.bars);
      var byClose := SortSeries(grouped, CloseLeq);
      var byTraded := SortSeries(grouped, TradedLeq);
      var byDate := SortSeries(grouped, DateLeq);
      var byAction := GroupActions(market.actions);
      var datesOf := DatesIndex(byClose);
      var tradedOf := TradedIndex(byTraded);
      BuiltFrom(market, grouped, byClose, byTraded, byDate, byAction);
      hide Built;
      closes, dates, traded, barsBySid, actionsBySid := byClose, datesOf, tradedOf, byDate, byAction;
    }

    method CloseOnOrBefore(sid: SecurityId, day: Date) returns (r: Option<Print>)
      requires Valid()
      ensures r == LastPrint(market, sid, day)
    {
      assert Entry(closes, sid) == Closes(market.bars, sid);
      if sid !in dates {
        return None;
      }
      var index := CountThrough(dates[sid], day);
      CountThroughDates(Closes(market.bars, sid), day);
      if index == 0 {
        return None;
      }
      var found := closes[sid][index - 1];
      r := Some(Print(found.date, found.close));
    }

    /** The window is cut from the traded values with a position found among the dates of the closes. */
    method MedianTraded(sid: SecurityId, day: Date) returns (r: Option<real>)
      requires Valid()
      ensures r == MedianTradedValue(market, sid, day)
    {
      assert Entry(closes, sid) == Closes(market.bars, sid);
      CountThroughDates(Closes(market.bars, sid), day);
      OnePositionForAll(market.bars, sid, day);
      if sid !in dates {
        return None;
      }
      hide CountThrough;
      hide BisectRight;
      hide Median;
      hide Closes;
      hide Traded;
      hide Dates;
      hide Values;
      var index := CountThrough(dates[sid], day);
      if index == 0 {
        return None;
      }
      var from := Max(0, index - IMPACT_WINDOW_SESSIONS);
      WindowValues(Traded(market.bars, sid), from, index);
      r := Some(Median(traded[sid][from..index]));
    }

    /** One security's bars within [start, end], cut with positions found among the dates of the closes. */
    method BarsWithin(sid: SecurityId, start: Date, end: Date) returns (out: seq<Bar>)
      requires Valid()
      ensures var s := Panel(market.bars, sid); out == Slice(s, BisectLeft(s, start), BisectRight(s, end))
    {
      assert Entry(closes, sid) == Closes(market.bars, sid);
      CountBeforeDates(Closes(market.bars, sid), start);
      CountThroughDates(Closes(market.bars, sid), end);
      OnePositionForAll(market.bars, sid, start);
      OnePositionForAll(market.bars, sid, end);
      var own := if sid in dates then dates[sid] else [];
      assert Entry(barsBySid, sid) == Panel(market.bars, sid);
      assert own == Dates(Closes(market.bars, sid));
      out := Slice(Entry(barsBySid, sid), CountBefore(own, start), CountThrough(own, end));
    }

    method BarsForAll(sids: set<SecurityId>, start: Date, end: Date) returns (out: seq<Bar>)
      requires Valid()
      ensures out == BarsFor(market.bars, Sorting.Ascending(sids), start, end)
    {
      hide *;
      var ids := Sorting.Ascending(sids);
      out := [];
      assert ids[0..] == ids;
      for i := 0 to |ids|
        invariant BarsFor(market.bars, ids, start, end) == out + BarsFor(market.bars, ids[i..], start, end)
      {
        BarsForNext(market.bars, ids, i, start, end);
        var own := BarsWithin(ids[i], start, end);
        out := out + own;
      }
      BarsForNone(market.bars, ids, start, end);
    }

    method ActionsForAll(sids: set<SecurityId>) returns (out: seq<Action>)
      requires Valid()
      ensures out == ActionsFor(market.actions, Sorting.Ascending(sids))
    {
      hide *;
      var ids := Sorting.Ascending(sids);
      out := [];
      assert ids[0..] == ids;
      for i := 0 to |ids|
        invariant ActionsFor(market.actions, ids) == out + ActionsFor(market.actions, ids[i..])
      {
        ActionsForNext(market.actions, ids, i);
        var own := ActionsHeld(ids[i]);
        out := out + own;
      }
      ActionsForNone(market.actions, ids);
    }

    method ActionsHeld(sid: SecurityId) returns (own: seq<Action>)
      requires Valid()
      ensures own == ActionsOf(market.actions, sid)
    {
      own := if sid in actionsBySid then actionsBySid[sid] else [];
    }
  }

  lemma BarsForNext(bars: seq<Bar>, ids: seq<SecurityId>, i: nat, start: Date, end: Date)
    requires i < |ids|
    ensures var s := Panel(bars, ids[i]);
            BarsFor(bars, ids[i..], start, end) == Slice(s, BisectLeft(s, start), BisectRight(s, end)) + BarsFor(bars, ids[i + 1..], start, end)
  {
    assert ids[i..][1..] == ids[i + 1..];
  }

  lemma ActionsForNext(actions: seq<Action>, ids: seq<SecurityId>, i: nat)
    requires i < |ids|
    ensures ActionsFor(actions, ids[i..]) == ActionsOf(actions, ids[i]) + ActionsFor(actions, ids[i + 1..])
  {
    assert ids[i..][1..] == ids[i + 1..];
  }

  lemma ActionsForNone(actions: seq<Action>, ids: seq<SecurityId>)
    ensures ActionsFor(actions, ids[|ids|..]) == []
  {
  }

  lemma BarsForNone(bars: seq<Bar>, ids: seq<SecurityId>, start: Date, end: Date)
    ensures BarsFor(bars, ids[|ids|..], start, end) == []
  {
  }
}
