/** The engine's dataset and its lookups: last print, trailing liquidity, effective actions.

    A lookup is a function of the whole dataset and a day. What each means is proved here, and so is
    that a lookup on a day cannot tell apart datasets that agree through that day. */
module Markets {
  import opened Domain
  import Sorting

  datatype Market = Market(bars: seq<Bar>, actions: seq<Action>)

  datatype Print = Print(date: Date, close: Positive)

  /** Sessions in the trailing liquidity window. */
  const IMPACT_WINDOW_SESSIONS := 60

  function TradedValue(b: Bar): real {
    b.close * (b.volume as real)
  }

  predicate CloseLeq(a: Bar, b: Bar) {
    a.date < b.date || (a.date == b.date && a.close <= b.close)
  }

  predicate TradedLeq(a: Bar, b: Bar) {
    a.date < b.date || (a.date == b.date && TradedValue(a) <= TradedValue(b))
  }

  predicate DateLeq(a: Bar, b: Bar) {
    a.date <= b.date
  }

  predicate RealLeq(a: real, b: real) {
    a <= b
  }

  // ----- selections from a list of bars or actions

  function BarsOf(bars: seq<Bar>, sid: SecurityId): seq<Bar> {
    if bars == [] then []
    else if bars[0].sid == sid then [bars[0]] + BarsOf(bars[1..], sid)
    else BarsOf(bars[1..], sid)
  }

  function UpTo(bars: seq<Bar>, day: Date): seq<Bar> {
    if bars == [] then []
    else if bars[0].date <= day then [bars[0]] + UpTo(bars[1..], day)
    else UpTo(bars[1..], day)
  }

  function Within(bars: seq<Bar>, start: Date, end: Date): seq<Bar> {
    if bars == [] then []
    else if start <= bars[0].date <= end then [bars[0]] + Within(bars[1..], start, end)
    else Within(bars[1..], start, end)
  }

  function ActionsOf(actions: seq<Action>, sid: SecurityId): seq<Action> {
    if actions == [] then []
    else if actions[0].sid == sid then [actions[0]] + ActionsOf(actions[1..], sid)
    else ActionsOf(actions[1..], sid)
  }

  function ExUpTo(actions: seq<Action>, day: Date): seq<Action> {
    if actions == [] then []
    else if actions[0].exDate <= day then [actions[0]] + ExUpTo(actions[1..], day)
    else ExUpTo(actions[1..], day)
  }

  /** An action takes effect on its ex-date or on the day it becomes knowable, whichever is later. */
  function Effective(a: Action): Date {
    Max(a.exDate, DayOf(a.availableAt))
  }

  function EffectiveOn(actions: seq<Action>, day: Date): seq<Action> {
    if actions == [] then []
    else if Effective(actions[0]) == day then [actions[0]] + EffectiveOn(actions[1..], day)
    else EffectiveOn(actions[1..], day)
  }

  // ----- lookups

  /** Insertion point after every entry on or before `day` in a date-ordered series. */
  function BisectRight(s: seq<Bar>, day: Date): (r: nat)
    ensures r <= |s|
  {
    if s == [] || s[0].date > day then 0 else 1 + BisectRight(s[1..], day)
  }

  /** Insertion point before every entry on or after `day` in a date-ordered series. */
  function BisectLeft(s: seq<Bar>, day: Date): (r: nat)
    ensures r <= |s|
  {
    if s == [] || s[0].date >= day then 0 else 1 + BisectLeft(s[1..], day)
  }

  function Dates(bars: seq<Bar>): (r: seq<Date>)
    ensures |r| == |bars|
  {
    seq(|bars|, i requires 0 <= i < |bars| => bars[i].date)
  }

  /** How many leading dates lie before `ex`: the left insertion point in an ascending list. */
  function CountBefore(dates: seq<Date>, ex: Date): (r: nat)
    ensures r <= |dates|
  {
    if dates == [] || dates[0] >= ex then 0 else 1 + CountBefore(dates[1..], ex)
  }

  /** How many leading dates lie on or before `day`: the right insertion point in an ascending list. */
  function CountThrough(dates: seq<Date>, day: Date): (r: nat)
    ensures r <= |dates|
  {
    if dates == [] || dates[0] > day then 0 else 1 + CountThrough(dates[1..], day)
  }

  function Closes(bars: seq<Bar>, sid: SecurityId): seq<Bar> {
    Sorting.SortBy(BarsOf(bars, sid), CloseLeq)
  }

  function Traded(bars: seq<Bar>, sid: SecurityId): seq<Bar> {
    Sorting.SortBy(BarsOf(bars, sid), TradedLeq)
  }

  function Panel(bars: seq<Bar>, sid: SecurityId): seq<Bar> {
    Sorting.SortBy(BarsOf(bars, sid), DateLeq)
  }

  function LastOf(series: seq<Bar>, day: Date): Option<Print> {
    var index := BisectRight(series, day);
    if index == 0 then None else Some(Print(series[index - 1].date, series[index - 1].close))
  }

  /** The last close on or before `day`, with its date. */
  function LastPrint(m: Market, sid: SecurityId, day: Date): Option<Print> {
    LastOf(Closes(m.bars, sid), day)
  }

  function Values(bars: seq<Bar>): (r: seq<real>)
    ensures |r| == |bars|
  {
    seq(|bars|, i requires 0 <= i < |bars| => TradedValue(bars[i]))
  }

  function Median(values: seq<real>): real
    requires values != []
  {
    var s := Sorting.SortBy(values, RealLeq);
    var h := |s| / 2;
    if |s| % 2 == 1 then s[h] else (s[h - 1] + s[h]) / 2.0
  }

  /** Median traded value over the trailing window on or before `day`; None without bars. */
  function MedianTradedValue(m: Market, sid: SecurityId, day: Date): Option<real> {
    var series := Traded(m.bars, sid);
    var index := BisectRight(series, day);
    if index == 0 then None
    else Some(Median(Values(series[Max(0, index - IMPACT_WINDOW_SESSIONS)..index])))
  }

  function Slice(s: seq<Bar>, left: nat, right: nat): seq<Bar>
    requires right <= |s|
  {
    if left <= right then s[left..right] else []
  }

  /** Date-ordered bars of each listed security within [start, end], security by security. */
  function BarsFor(bars: seq<Bar>, sids: seq<SecurityId>, start: Date, end: Date): seq<Bar> {
    if sids == [] then []
    else
      var s := Panel(bars, sids[0]);
      Slice(s, BisectLeft(s, start), BisectRight(s, end)) + BarsFor(bars, sids[1..], start, end)
  }

  function ActionsFor(actions: seq<Action>, sids: seq<SecurityId>): seq<Action> {
    if sids == [] then []
    else ActionsOf(actions, sids[0]) + ActionsFor(actions, sids[1..])
  }

  // ----- order facts

  ghost predicate DateFirst(leq: (Bar, Bar) -> bool) {
    && Sorting.TotalPreorder(leq)
    && (forall a, b :: leq(a, b) ==> a.date <= b.date)
  }

  ghost predicate DateOrdered(s: seq<Bar>) {
    Sorting.Sorted(s, DateLeq)
  }

  lemma OrdersAreDateFirst()
    ensures DateFirst(CloseLeq) && DateFirst(TradedLeq) && DateFirst(DateLeq)
  {
  }

  lemma SeriesDateOrdered(s: seq<Bar>, leq: (Bar, Bar) -> bool)
    requires DateFirst(leq)
    ensures DateOrdered(Sorting.SortBy(s, leq))
  {
    Sorting.SortedSortBy(s, leq);
  }

  lemma {:induction false} UpToEmpty(s: seq<Bar>, day: Date)
    requires forall i :: 0 <= i < |s| ==> s[i].date > day
    ensures UpTo(s, day) == []
  {
    if s != [] {
      UpToEmpty(s[1..], day);
    }
  }

  /** Bisection cuts a date-ordered series exactly at the requested day. */
  lemma {:induction false} BisectRightIsUpTo(s: seq<Bar>, day: Date)
    requires DateOrdered(s)
    ensures s[..BisectRight(s, day)] == UpTo(s, day)
    ensures forall i :: 0 <= i < BisectRight(s, day) ==> s[i].date <= day
    ensures forall i :: BisectRight(s, day) <= i < |s| ==> s[i].date > day
  {
    if s == [] {
    } else if s[0].date > day {
      forall i | 0 <= i < |s|
        ensures s[i].date > day
      {
        assert i == 0 || DateLeq(s[0], s[i]);
      }
      UpToEmpty(s, day);
    } else {
      BisectRightIsUpTo(s[1..], day);
      assert s == [s[0]] + s[1..];
    }
  }

  lemma {:induction false} SliceIsWithin(s: seq<Bar>, start: Date, end: Date)
    requires DateOrdered(s)
    ensures Slice(s, BisectLeft(s, start), BisectRight(s, end)) == Within(s, start, end)
  {
    if s == [] {
    } else if s[0].date > end {
      BisectRightIsUpTo(s, end);
      WithinEmpty(s, start, end);
    } else {
      var t := s[1..];
      SliceIsWithin(t, start, end);
      var left, right := BisectLeft(t, start), BisectRight(t, end);
      if s[0].date >= start {
        BisectLeftZero(t, s[0].date, start);
        assert s[0..1 + right] == [s[0]] + t[0..right];
      } else if left <= right {
        assert s[1 + left..1 + right] == t[left..right];
      }
    }
  }

  lemma {:induction false} WithinEmpty(s: seq<Bar>, start: Date, end: Date)
    requires forall i :: 0 <= i < |s| ==> s[i].date > end
    ensures Within(s, start, end) == []
  {
    if s != [] {
      WithinEmpty(s[1..], start, end);
    }
  }

  lemma BisectLeftZero(s: seq<Bar>, lo: Date, start: Date)
    requires start <= lo && DateOrdered(s) && forall i :: 0 <= i < |s| ==> lo <= s[i].date
    ensures BisectLeft(s, start) == 0
  {
  }

  lemma {:induction false} WithinUpTo(s: seq<Bar>, start: Date, end: Date, day: Date)
    requires end <= day
    ensures Within(UpTo(s, day), start, end) == Within(s, start, end)
  {
    if s != [] {
      WithinUpTo(s[1..], start, end, day);
    }
  }

  lemma {:induction false} UpToUpTo(s: seq<Bar>, day: Date, later: Date)
    requires day <= later
    ensures UpTo(UpTo(s, later), day) == UpTo(s, day)
  {
    if s != [] {
      UpToUpTo(s[1..], day, later);
    }
  }

  lemma {:induction false} BarsOfUpTo(s: seq<Bar>, sid: SecurityId, day: Date)
    ensures BarsOf(UpTo(s, day), sid) == UpTo(BarsOf(s, sid), day)
  {
    if s != [] {
      BarsOfUpTo(s[1..], sid, day);
    }
  }

  lemma {:induction false} UpToInsert(x: Bar, s: seq<Bar>, leq: (Bar, Bar) -> bool, day: Date)
    requires DateFirst(leq) && Sorting.Sorted(s, leq)
    ensures UpTo(Sorting.Insert(x, s, leq), day)
         == if x.date <= day then Sorting.Insert(x, UpTo(s, day), leq) else UpTo(s, day)
  {
    if s == [] {
    } else {
      assert forall i :: 0 < i < |s| ==> leq(s[0], s[i]);
      if s[0].date > day {
        UpToEmpty(s, day);
        UpToEmpty(s[1..], day);
      }
      if !leq(x, s[0]) {
        UpToInsert(x, s[1..], leq, day);
      }
    }
  }

  /** Cutting a series at a day and then sorting is the same as sorting and then cutting. */
  lemma {:induction false} UpToSortBy(s: seq<Bar>, leq: (Bar, Bar) -> bool, day: Date)
    requires DateFirst(leq)
    ensures UpTo(Sorting.SortBy(s, leq), day) == Sorting.SortBy(UpTo(s, day), leq)
  {
    if s != [] {
      UpToSortBy(s[1..], leq, day);
      Sorting.SortedSortBy(s[1..], leq);
      UpToInsert(s[0], Sorting.SortBy(s[1..], leq), leq, day);
    }
  }

  // ----- what the lookups mean

  lemma {:induction false} InBarsOf(bars: seq<Bar>, sid: SecurityId)
    ensures forall b :: b in BarsOf(bars, sid) <==> b in bars && b.sid == sid
  {
    if bars != [] {
      InBarsOf(bars[1..], sid);
      assert bars == [bars[0]] + bars[1..];
    }
  }

  lemma {:induction false} BarsOfAppend(bars: seq<Bar>, b: Bar, sid: SecurityId)
    ensures BarsOf(bars + [b], sid) == if b.sid == sid then BarsOf(bars, sid) + [b] else BarsOf(bars, sid)
  {
    if bars == [] {
    } else {
      assert (bars + [b])[1..] == bars[1..] + [b];
      BarsOfAppend(bars[1..], b, sid);
    }
  }

  ghost predicate PrintedBy(bars: seq<Bar>, sid: SecurityId, day: Date, b: Bar) {
    b in bars && b.sid == sid && b.date <= day
  }

  lemma ClosesMembers(bars: seq<Bar>, sid: SecurityId)
    ensures forall b :: b in Closes(bars, sid) <==> b in bars && b.sid == sid
    ensures Sorting.Sorted(Closes(bars, sid), CloseLeq)
    ensures DateOrdered(Closes(bars, sid))
  {
    OrdersAreDateFirst();
    InBarsOf(bars, sid);
    Sorting.SameElements(Closes(bars, sid), BarsOf(bars, sid));
    Sorting.SortedSortBy(BarsOf(bars, sid), CloseLeq);
    SeriesDateOrdered(BarsOf(bars, sid), CloseLeq);
  }

  lemma LastOfIsGreatest(s: seq<Bar>, day: Date, b: Bar)
    requires Sorting.Sorted(s, CloseLeq) && DateOrdered(s)
    requires b in s && b.date <= day
    ensures BisectRight(s, day) > 0 && CloseLeq(b, s[BisectRight(s, day) - 1])
  {
    BisectRightIsUpTo(s, day);
    var i :| 0 <= i < |s| && s[i] == b;
    assert i < BisectRight(s, day);
    assert i == BisectRight(s, day) - 1 || CloseLeq(s[i], s[BisectRight(s, day) - 1]);
  }

  lemma LastOfIsMember(s: seq<Bar>, day: Date)
    requires DateOrdered(s) && BisectRight(s, day) > 0
    ensures s[BisectRight(s, day) - 1] in s && s[BisectRight(s, day) - 1].date <= day
  {
    BisectRightIsUpTo(s, day);
  }

  ghost predicate NoneLater(bars: seq<Bar>, sid: SecurityId, day: Date, p: Print) {
    forall b :: PrintedBy(bars, sid, day, b) ==> b.date < p.date || (b.date == p.date && b.close <= p.close)
  }

  /** The print returned is a real one, no later than `day`, and nothing of the security lies
      between it and `day`; there is none exactly when the security has no bar by then. */
  lemma LastPrintMeaning(m: Market, sid: SecurityId, day: Date)
    ensures LastPrint(m, sid, day).None? <==> forall b :: !PrintedBy(m.bars, sid, day, b)
    ensures LastPrint(m, sid, day).Some? ==>
              var p := LastPrint(m, sid, day).value;
              && (exists b :: PrintedBy(m.bars, sid, day, b) && b.date == p.date && b.close == p.close)
              && NoneLater(m.bars, sid, day, p)
  {
    var s := Closes(m.bars, sid);
    var n := BisectRight(s, day);
    ClosesMembers(m.bars, sid);
    if n == 0 {
      forall b | PrintedBy(m.bars, sid, day, b)
        ensures false
      {
        LastOfIsGreatest(s, day, b);
      }
    } else {
      LastOfIsMember(s, day);
      var found := s[n - 1];
      assert PrintedBy(m.bars, sid, day, found);
      forall b | PrintedBy(m.bars, sid, day, b)
        ensures CloseLeq(b, found)
      {
        LastOfIsGreatest(s, day, b);
      }
    }
  }

  /** As the days pass, a security that has printed keeps having a last print. */
  lemma LastPrintStays(m: Market, sid: SecurityId, day: Date, later: Date)
    requires day <= later && LastPrint(m, sid, day).Some?
    ensures LastPrint(m, sid, later).Some?
  {
    LastPrintMeaning(m, sid, day);
    LastPrintMeaning(m, sid, later);
    var b :| PrintedBy(m.bars, sid, day, b);
    assert PrintedBy(m.bars, sid, later, b);
  }

  // ----- markets that agree up to a day

  /** The two datasets hold the same bars dated by `day` and the same actions ex by `day`; either
      may hold anything after it, anywhere in its input order. */
  ghost predicate Agree(m1: Market, m2: Market, day: Date) {
    UpTo(m1.bars, day) == UpTo(m2.bars, day) && ExUpTo(m1.actions, day) == ExUpTo(m2.actions, day)
  }

  lemma SeriesAgree(m1: Market, m2: Market, sid: SecurityId, leq: (Bar, Bar) -> bool, day: Date, asked: Date)
    requires Agree(m1, m2, day) && asked <= day && DateFirst(leq)
    ensures var s1 := Sorting.SortBy(BarsOf(m1.bars, sid), leq);
            var s2 := Sorting.SortBy(BarsOf(m2.bars, sid), leq);
            && UpTo(s1, asked) == UpTo(s2, asked)
            && DateOrdered(s1) && DateOrdered(s2)
            && BisectRight(s1, asked) == BisectRight(s2, asked)
            && s1[..BisectRight(s1, asked)] == s2[..BisectRight(s2, asked)]
  {
    forall bars | bars == m1.bars || bars == m2.bars
      ensures UpTo(Sorting.SortBy(BarsOf(bars, sid), leq), asked)
           == Sorting.SortBy(BarsOf(UpTo(UpTo(bars, day), asked), sid), leq)
      ensures DateOrdered(Sorting.SortBy(BarsOf(bars, sid), leq))
    {
      SeriesDateOrdered(BarsOf(bars, sid), leq);
      UpToSortBy(BarsOf(bars, sid), leq, asked);
      BarsOfUpTo(bars, sid, asked);
      UpToUpTo(bars, asked, day);
    }
    BisectRightIsUpTo(Sorting.SortBy(BarsOf(m1.bars, sid), leq), asked);
    BisectRightIsUpTo(Sorting.SortBy(BarsOf(m2.bars, sid), leq), asked);
  }

  lemma SamePrefixLast(c1: seq<Bar>, c2: seq<Bar>, asked: Date)
    requires BisectRight(c1, asked) == BisectRight(c2, asked)
    requires c1[..BisectRight(c1, asked)] == c2[..BisectRight(c2, asked)]
    ensures LastOf(c1, asked) == LastOf(c2, asked)
  {
    hide BisectRight;
    var n := BisectRight(c1, asked);
    if n > 0 {
      assert c1[..n][n - 1] == c2[..n][n - 1];
    }
  }

  lemma SamePrefixWindow(t1: seq<Bar>, t2: seq<Bar>, k: nat, from: nat)
    requires from <= k <= |t1| && k <= |t2| && t1[..k] == t2[..k]
    ensures t1[from..k] == t2[from..k]
  {
    assert t1[from..k] == t1[..k][from..] == t2[..k][from..] == t2[from..k];
  }

  /** Lookups on or before a day cannot tell agreeing datasets apart. */
  lemma LookupsAgree(m1: Market, m2: Market, day: Date, sid: SecurityId, asked: Date)
    requires Agree(m1, m2, day) && asked <= day
    ensures LastPrint(m1, sid, asked) == LastPrint(m2, sid, asked)
    ensures MedianTradedValue(m1, sid, asked) == MedianTradedValue(m2, sid, asked)
  {
    OrdersAreDateFirst();
    hide Agree;
    hide DateFirst;
    hide Sorting.SortBy;
    hide BisectRight;
    hide BarsOf;
    hide LastOf;
    hide Median;
    hide Values;
    hide DateOrdered;
    hide UpTo;
    SeriesAgree(m1, m2, sid, CloseLeq, day, asked);
    SamePrefixLast(Closes(m1.bars, sid), Closes(m2.bars, sid), asked);
    SeriesAgree(m1, m2, sid, TradedLeq, day, asked);
    var t1, t2 := Traded(m1.bars, sid), Traded(m2.bars, sid);
    var k := BisectRight(t1, asked);
    if k > 0 {
      SamePrefixWindow(t1, t2, k, Max(0, k - IMPACT_WINDOW_SESSIONS));
    }
  }

  lemma {:induction false} BarsForAgree(m1: Market, m2: Market, day: Date, sids: seq<SecurityId>, start: Date, end: Date)
    requires Agree(m1, m2, day) && end <= day
    ensures BarsFor(m1.bars, sids, start, end) == BarsFor(m2.bars, sids, start, end)
  {
    if sids != [] {
      BarsForAgree(m1, m2, day, sids[1..], start, end);
      OrdersAreDateFirst();
      SeriesAgree(m1, m2, sids[0], DateLeq, day, end);
      forall bars | bars == m1.bars || bars == m2.bars
        ensures var s := Panel(bars, sids[0]);
                Slice(s, BisectLeft(s, start), BisectRight(s, end)) == Within(UpTo(s, end), start, end)
      {
        SliceIsWithin(Panel(bars, sids[0]), start, end);
        WithinUpTo(Panel(bars, sids[0]), start, end, end);
      }
    }
  }

  lemma {:induction false} EffectiveOnExUpTo(actions: seq<Action>, today: Date, day: Date)
    requires today <= day
    ensures EffectiveOn(ExUpTo(actions, day), today) == EffectiveOn(actions, today)
  {
    if actions != [] {
      EffectiveOnExUpTo(actions[1..], today, day);
    }
  }

  /** The actions that take effect on a day are the same in agreeing datasets. */
  lemma EffectiveOnAgrees(m1: Market, m2: Market, today: Date, day: Date)
    requires Agree(m1, m2, day) && today <= day
    ensures EffectiveOn(m1.actions, today) == EffectiveOn(m2.actions, today)
  {
    EffectiveOnExUpTo(m1.actions, today, day);
    EffectiveOnExUpTo(m2.actions, today, day);
  }
}
