/** Backward-cumulative adjustment factors: the definition per date, and the pointer sweep. */
module Adjustments {
  import opened Arithmetic
  import opened Domain
  import opened Markets
  import opened Context
  import Sorting

  /** Split and dividend factors of one date; the latest date's are both 1. */
  datatype Factor = Factor(split: real, dividend: real)

  const ONE := Factor(1.0, 1.0)

  datatype AdjustmentError = NoAnchor

  function Compose(a: Factor, b: Factor): Factor {
    Factor(Times(a.split, b.split), Times(a.dividend, b.dividend))
  }

  lemma ComposeLaws(a: Factor, b: Factor, c: Factor)
    ensures Compose(a, ONE) == a && Compose(ONE, a) == a
    ensures Compose(a, b) == Compose(b, a)
    ensures Compose(Compose(a, b), c) == Compose(a, Compose(b, c))
  {
    TimesCommutes(a.split, b.split);
    TimesCommutes(a.dividend, b.dividend);
    TimesAssociates(a.split, b.split, c.split);
    TimesAssociates(a.dividend, b.dividend, c.dividend);
  }

  // ----- the definition: a product over events, one factor per known action

  /** The close on the last bar before `ex`, if there is one within the tolerated gap. */
  function Anchor(bars: seq<Bar>, ex: Date): Option<Positive> {
    var k := CountBefore(Dates(bars), ex);
    if k == 0 || ex - bars[k - 1].date > MAX_PREV_CLOSE_GAP_DAYS then None else Some(bars[k - 1].close)
  }

  /** Old over new shares, over every split sharing the ex-date. */
  function SplitAt(actions: seq<Action>, ex: Date): (r: real)
    ensures r > 0.0
  {
    if actions == [] then 1.0
    else
      var rest := SplitAt(actions[1..], ex);
      match actions[0]
      case Split(_, on, _, newShares, oldShares) =>
        if on == ex then
          TimesPositive(oldShares as real / newShares as real, rest);
          Times(oldShares as real / newShares as real, rest)
        else rest
      case _ => rest
  }

  /** One minus the dividend's share of the previous close in post-split terms. */
  function DividendPart(amount: real, close: Positive, split: real): real
    requires split > 0.0
  {
    TimesPositive(close, split);
    1.0 - amount / Times(close, split)
  }

  function ActionFactor(bars: seq<Bar>, all: seq<Action>, a: Action): Factor {
    match a
    case Split(_, _, _, newShares, oldShares) => Factor(oldShares as real / newShares as real, 1.0)
    case Dividend(_, ex, _, amount, _) =>
      if Anchor(bars, ex).Some? then Factor(1.0, DividendPart(amount, Anchor(bars, ex).value, SplitAt(all, ex))) else ONE
    case _ => ONE
  }

  /** The combined factor of the listed actions with ex-date in (lo, hi]. */
  function Between(bars: seq<Bar>, all: seq<Action>, actions: seq<Action>, lo: Date, hi: Date): Factor {
    if actions == [] then ONE
    else if lo < actions[0].exDate <= hi then
      Compose(ActionFactor(bars, all, actions[0]), Between(bars, all, actions[1..], lo, hi))
    else Between(bars, all, actions[1..], lo, hi)
  }

  function LastDate(bars: seq<Bar>): Date
    requires bars != []
  {
    bars[|bars| - 1].date
  }

  /** The factor at date `d`: every known event ex after `d` and by the last bar. */
  function FactorAt(bars: seq<Bar>, actions: seq<Action>, d: Date): Factor
    requires bars != []
  {
    Between(bars, actions, actions, d, LastDate(bars))
  }

  /** Every dividend the series covers has a close to anchor it. */
  predicate Anchorable(bars: seq<Bar>, actions: seq<Action>)
    requires bars != []
  {
    forall a :: a in actions && a.Dividend? && a.exDate <= LastDate(bars) ==> Anchor(bars, a.exDate).Some?
  }

  function DateSet(bars: seq<Bar>): set<Date> {
    set b | b in bars :: b.date
  }

  /** Factors per bar date from the known actions of one security, or the anchoring error. */
  function Factors(bars: seq<Bar>, actions: seq<Action>): Result<map<Date, Factor>, AdjustmentError>
    requires bars != []
  {
    if Anchorable(bars, actions) then Success(map d | d in DateSet(bars) :: FactorAt(bars, actions, d))
    else Failure(NoAnchor)
  }

  // ----- laws of the definition

  predicate Adjusts(a: Action) {
    a.Split? || a.Dividend?
  }

  lemma {:induction false} BetweenEmpty(bars: seq<Bar>, all: seq<Action>, actions: seq<Action>, lo: Date, hi: Date)
    requires forall a :: a in actions && Adjusts(a) ==> !(lo < a.exDate <= hi)
    ensures Between(bars, all, actions, lo, hi) == ONE
  {
    if actions != [] {
      BetweenEmpty(bars, all, actions[1..], lo, hi);
      assert actions[0] in actions;
      ComposeLaws(ONE, ONE, ONE);
    }
  }

  /** An interval of ex-dates may be cut anywhere. */
  lemma {:induction false} BetweenSplits(bars: seq<Bar>, all: seq<Action>, actions: seq<Action>, lo: Date, mid: Date, hi: Date)
    requires lo <= mid <= hi
    ensures Between(bars, all, actions, lo, hi)
         == Compose(Between(bars, all, actions, lo, mid), Between(bars, all, actions, mid, hi))
  {
    hide ActionFactor;
    hide Compose;
    if actions == [] {
      ComposeLaws(ONE, ONE, ONE);
    } else {
      var rest := actions[1..];
      BetweenSplits(bars, all, rest, lo, mid, hi);
      var f := ActionFactor(bars, all, actions[0]);
      var low, high := Between(bars, all, rest, lo, mid), Between(bars, all, rest, mid, hi);
      ComposeLaws(f, low, high);
      ComposeLaws(low, f, high);
    }
  }

  lemma FactorAtLast(bars: seq<Bar>, actions: seq<Action>)
    requires bars != []
    ensures FactorAt(bars, actions, LastDate(bars)) == ONE
  {
    BetweenEmpty(bars, actions, actions, LastDate(bars), LastDate(bars));
  }

  /** Between two bar dates the factors differ by exactly the events between them. */
  lemma FactorStep(bars: seq<Bar>, actions: seq<Action>, d1: Date, d2: Date)
    requires bars != [] && d1 <= d2 <= LastDate(bars)
    ensures FactorAt(bars, actions, d1)
         == Compose(Between(bars, actions, actions, d1, d2), FactorAt(bars, actions, d2))
  {
    BetweenSplits(bars, actions, actions, d1, d2, LastDate(bars));
  }

  // ----- the sweep: group by ex-date, then accumulate backward with a pointer

  /** New over old shares, over every split sharing the ex-date, in input order. */
  function RatioAt(actions: seq<Action>, ex: Date): (r: real)
    ensures r > 0.0
  {
    if actions == [] then 1.0
    else
      var n := |actions| - 1;
      var before := RatioAt(actions[..n], ex);
      if IsSplitAt(actions[n], ex) then
        TimesPositive(before, actions[n].newShares as real / actions[n].oldShares as real);
        Times(before, actions[n].newShares as real / actions[n].oldShares as real)
      else before
  }

  predicate IsSplitAt(a: Action, ex: Date) {
    a.Split? && a.exDate == ex
  }

  predicate IsDividendAt(a: Action, ex: Date) {
    a.Dividend? && a.exDate == ex
  }

  function DividendsAt(actions: seq<Action>, ex: Date): (r: seq<Action>)
    ensures forall a :: a in r ==> a.Dividend?
  {
    if actions == [] then []
    else
      var n := |actions| - 1;
      if IsDividendAt(actions[n], ex) then DividendsAt(actions[..n], ex) + [actions[n]]
      else DividendsAt(actions[..n], ex)
  }

  function DividendsPart(dividends: seq<Action>, close: Positive, split: real): real
    requires split > 0.0 && forall a :: a in dividends ==> a.Dividend?
  {
    if dividends == [] then 1.0
    else
      var n := |dividends| - 1;
      Times(DividendsPart(dividends[..n], close, split), DividendPart(dividends[n].amount, close, split))
  }

  lemma {:induction false} BetweenAppend(bars: seq<Bar>, all: seq<Action>, actions: seq<Action>, a: Action, lo: Date, hi: Date)
    ensures Between(bars, all, actions + [a], lo, hi)
         == if lo < a.exDate <= hi then Compose(Between(bars, all, actions, lo, hi), ActionFactor(bars, all, a))
            else Between(bars, all, actions, lo, hi)
  {
    hide ActionFactor;
    hide Compose;
    var f := ActionFactor(bars, all, a);
    if actions == [] {
      assert actions + [a] == [a];
      assert [a][1..] == [];
      ComposeLaws(f, ONE, ONE);
    } else {
      assert (actions + [a])[1..] == actions[1..] + [a];
      BetweenAppend(bars, all, actions[1..], a, lo, hi);
      ComposeLaws(ActionFactor(bars, all, actions[0]), Between(bars, all, actions[1..], lo, hi), f);
    }
  }

  lemma {:induction false} SplitAtAppend(actions: seq<Action>, a: Action, ex: Date)
    ensures SplitAt(actions + [a], ex)
         == if IsSplitAt(a, ex) then Times(SplitAt(actions, ex), a.oldShares as real / a.newShares as real) else SplitAt(actions, ex)
  {
    hide Times;
    if actions == [] {
      assert actions + [a] == [a];
      assert [a][1..] == [];
      if IsSplitAt(a, ex) {
        TimesCommutes(1.0, a.oldShares as real / a.newShares as real);
      }
    } else {
      assert (actions + [a])[1..] == actions[1..] + [a];
      SplitAtAppend(actions[1..], a, ex);
      if IsSplitAt(a, ex) && IsSplitAt(actions[0], ex) {
        TimesAssociates(actions[0].oldShares as real / actions[0].newShares as real, SplitAt(actions[1..], ex),
                        a.oldShares as real / a.newShares as real);
      }
    }
  }

  lemma ReciprocalTimes(x: real, y: real, n: real, d: real)
    requires x > 0.0 && n > 0.0 && d > 0.0 && y == 1.0 / x
    ensures Times(x, n / d) > 0.0
    ensures Times(y, d / n) == 1.0 / Times(x, n / d)
  {
    TimesPositive(x, n / d);
    assert (1.0 / x) * (d / n) * (x * (n / d)) == 1.0 by {
      assert (1.0 / x) * x == 1.0;
      assert (d / n) * (n / d) == 1.0;
    }
  }

  /** The grouped reciprocal is the product of the reciprocals. */
  lemma {:induction false} SplitAtIsReciprocal(actions: seq<Action>, ex: Date)
    ensures SplitAt(actions, ex) == 1.0 / RatioAt(actions, ex)
  {
    hide Times;
    if actions != [] {
      var n := |actions| - 1;
      var a := actions[n];
      assert actions == actions[..n] + [a];
      SplitAtIsReciprocal(actions[..n], ex);
      SplitAtAppend(actions[..n], a, ex);
      if IsSplitAt(a, ex) {
        ReciprocalTimes(RatioAt(actions[..n], ex), SplitAt(actions[..n], ex), a.newShares as real, a.oldShares as real);
      }
    }
  }

  /** One ex-date's grouped factor is the combined factor of its actions. */
  lemma {:induction false} GroupIsBetween(bars: seq<Bar>, all: seq<Action>, actions: seq<Action>, ex: Date)
    requires DividendsAt(actions, ex) != [] ==> Anchor(bars, ex).Some?
    ensures Between(bars, all, actions, ex - 1, ex)
         == Factor(SplitAt(actions, ex),
                   if DividendsAt(actions, ex) == [] then 1.0
                   else DividendsPart(DividendsAt(actions, ex), Anchor(bars, ex).value, SplitAt(all, ex)))
  {
    hide Times;
    hide DividendPart;
    hide Anchor;
    if actions != [] {
      var n := |actions| - 1;
      var a := actions[n];
      assert actions == actions[..n] + [a];
      GroupIsBetween(bars, all, actions[..n], ex);
      BetweenAppend(bars, all, actions[..n], a, ex - 1, ex);
      SplitAtAppend(actions[..n], a, ex);
      var before := Between(bars, all, actions[..n], ex - 1, ex);
      TimesUnits(before.split);
      TimesUnits(before.dividend);
      if IsDividendAt(a, ex) {
        var ds := DividendsAt(actions[..n], ex);
        assert (ds + [a])[..|ds|] == ds;
        assert DividendsPart([], Anchor(bars, ex).value, SplitAt(all, ex)) == 1.0;
      }
    }
  }

  lemma {:induction false} DividendsAtMembers(actions: seq<Action>, ex: Date)
    ensures forall a :: a in DividendsAt(actions, ex) <==> a in actions && IsDividendAt(a, ex)
  {
    if actions != [] {
      var n := |actions| - 1;
      assert actions == actions[..n] + [actions[n]];
      DividendsAtMembers(actions[..n], ex);
    }
  }

  lemma {:induction false} NoSplitRatio(actions: seq<Action>, ex: Date)
    requires forall a :: a in actions ==> !IsSplitAt(a, ex)
    ensures RatioAt(actions, ex) == 1.0
  {
    if actions != [] {
      NoSplitRatio(actions[..|actions| - 1], ex);
    }
  }

  ghost predicate HasSplit(actions: seq<Action>, ex: Date) {
    exists a :: a in actions && IsSplitAt(a, ex)
  }

  lemma HasSplitAppend(actions: seq<Action>, a: Action, ex: Date)
    ensures HasSplit(actions + [a], ex) <==> HasSplit(actions, ex) || IsSplitAt(a, ex)
  {
    assert forall x :: x in actions + [a] <==> x in actions || x == a;
    if IsSplitAt(a, ex) {
      assert a in actions + [a];
    }
    if HasSplit(actions, ex) {
      var x :| x in actions && IsSplitAt(x, ex);
      assert x in actions + [a];
    }
  }

  /** The loop that groups splits and dividends by ex-date, ignoring those after the last bar. */
  method GroupActions(actions: seq<Action>, last: Date)
    returns (splitsByEx: map<Date, real>, dividendsByEx: map<Date, seq<Action>>)
    ensures forall ex :: ex in splitsByEx <==> ex <= last && HasSplit(actions, ex)
    ensures forall ex :: ex in splitsByEx ==> splitsByEx[ex] == RatioAt(actions, ex)
    ensures forall ex :: ex in dividendsByEx <==> ex <= last && DividendsAt(actions, ex) != []
    ensures forall ex :: ex in dividendsByEx ==> dividendsByEx[ex] == DividendsAt(actions, ex)
  {
    splitsByEx, dividendsByEx := map[], map[];
    for i := 0 to |actions|
      invariant forall ex :: ex in splitsByEx <==> ex <= last && HasSplit(actions[..i], ex)
      invariant forall ex :: ex in splitsByEx ==> splitsByEx[ex] == RatioAt(actions[..i], ex)
      invariant forall ex :: ex in dividendsByEx <==> ex <= last && DividendsAt(actions[..i], ex) != []
      invariant forall ex :: ex in dividendsByEx ==> dividendsByEx[ex] == DividendsAt(actions[..i], ex)
    {
      hide Times;
      var a := actions[i];
      var ex := a.exDate;
      assert actions[..i + 1] == actions[..i] + [a];
      assert actions[..i + 1][..i] == actions[..i];
      forall on
        ensures HasSplit(actions[..i + 1], on) <==> HasSplit(actions[..i], on) || IsSplitAt(a, on)
      {
        HasSplitAppend(actions[..i], a, on);
      }
      if ex > last {
        continue;
      }
      if a.Split? {
        if ex !in splitsByEx {
          NoSplitRatio(actions[..i], ex);
        }
        var before := if ex in splitsByEx then splitsByEx[ex] else 1.0;
        splitsByEx := splitsByEx[ex := Times(before, a.newShares as real / a.oldShares as real)];
      } else if a.Dividend? {
        var before := if ex in dividendsByEx then dividendsByEx[ex] else [];
        dividendsByEx := dividendsByEx[ex := before + [a]];
      }
    }
    assert actions[..|actions|] == actions;
  }

  /** Bar `i` is the last one dated before `ex`. */
  ghost predicate LastBefore(bars: seq<Bar>, ex: Date, i: int) {
    0 <= i < |bars| && bars[i].date < ex && forall k :: i < k < |bars| ==> ex <= bars[k].date
  }

  /** Counting the dates before `ex` finds the last bar before it, if any. */
  lemma {:induction false} CountFindsLastBefore(bars: seq<Bar>, ex: Date)
    requires DateOrdered(bars)
    ensures CountBefore(Dates(bars), ex) > 0 ==> LastBefore(bars, ex, CountBefore(Dates(bars), ex) - 1)
    ensures CountBefore(Dates(bars), ex) == 0 ==> forall k :: 0 <= k < |bars| ==> ex <= bars[k].date
  {
    if bars != [] {
      if bars[0].date >= ex {
        assert forall k :: 0 < k < |bars| ==> DateLeq(bars[0], bars[k]);
      } else {
        assert Dates(bars)[1..] == Dates(bars[1..]);
        CountFindsLastBefore(bars[1..], ex);
        assert forall k :: 0 < k < |bars| ==> bars[k] == bars[1..][k - 1];
      }
    }
  }

  /** The anchor close for a dividend: the close of the last bar before its ex-date, refused when no
      bar lies before it or the last one lies too far back. */
  method PreviousClose(bars: seq<Bar>, ex: Date) returns (r: Result<Positive, AdjustmentError>)
    requires DateOrdered(bars)
    ensures r.Success? <==> exists i :: LastBefore(bars, ex, i) && ex - bars[i].date <= MAX_PREV_CLOSE_GAP_DAYS
    ensures r.Success? ==> exists i :: LastBefore(bars, ex, i) && r.value == bars[i].close
    ensures r == if Anchor(bars, ex).Some? then Success(Anchor(bars, ex).value) else Failure(NoAnchor)
  {
    CountFindsLastBefore(bars, ex);
    var k := CountBefore(Dates(bars), ex);
    if k == 0 {
      return Failure(NoAnchor);
    }
    if ex - bars[k - 1].date > MAX_PREV_CLOSE_GAP_DAYS {
      return Failure(NoAnchor);
    }
    r := Success(bars[k - 1].close);
  }

  method DividendProduct(dividends: seq<Action>, close: Positive, split: real) returns (part: real)
    requires split > 0.0 && forall a :: a in dividends ==> a.Dividend?
    ensures part == DividendsPart(dividends, close, split)
  {
    part := 1.0;
    for i := 0 to |dividends|
      invariant part == DividendsPart(dividends[..i], close, split)
    {
      hide Times;
      hide DividendPart;
      assert dividends[..i + 1][..i] == dividends[..i];
      part := Times(part, DividendPart(dividends[i].amount, close, split));
    }
    assert dividends[..|dividends|] == dividends;
  }

  datatype EventFactor = EventFactor(ex: Date, factor: Factor)

  /** The events, latest first, each holding the combined factor of its day's actions; between
      neighbours, and outside them, nothing adjusts the series. */
  ghost predicate EventList(bars: seq<Bar>, actions: seq<Action>, events: seq<EventFactor>)
    requires bars != []
  {
    && (forall i, j :: 0 <= i < j < |events| ==> events[i].ex > events[j].ex)
    && (forall i :: 0 <= i < |events| ==>
          events[i].ex <= LastDate(bars) && events[i].factor == Between(bars, actions, actions, events[i].ex - 1, events[i].ex))
    && (forall a :: a in actions && Adjusts(a) && a.exDate <= LastDate(bars) ==>
          exists i :: 0 <= i < |events| && events[i].ex == a.exDate)
  }

  /** One event's combined factor, from its grouped splits and dividends. */
  method EventAt(bars: seq<Bar>, ghost actions: seq<Action>, splitsByEx: map<Date, real>,
                 dividendsByEx: map<Date, seq<Action>>, ex: Date)
    returns (r: Result<Factor, AdjustmentError>)
    requires bars != [] && ex <= LastDate(bars) && DateOrdered(bars)
    requires ex in splitsByEx <==> HasSplit(actions, ex)
    requires ex in splitsByEx ==> splitsByEx[ex] == RatioAt(actions, ex)
    requires ex in dividendsByEx <==> DividendsAt(actions, ex) != []
    requires ex in dividendsByEx ==> dividendsByEx[ex] == DividendsAt(actions, ex)
    ensures r.Failure? <==> DividendsAt(actions, ex) != [] && Anchor(bars, ex).None?
    ensures r.Failure? ==> r == Failure(NoAnchor)
    ensures r.Success? ==> r.value == Between(bars, actions, actions, ex - 1, ex)
  {
    SplitAtIsReciprocal(actions, ex);
    if ex !in splitsByEx {
      forall a | a in actions
        ensures !IsSplitAt(a, ex)
      {
      }
      NoSplitRatio(actions, ex);
    }
    var splitPart := if ex in splitsByEx then 1.0 / splitsByEx[ex] else 1.0;
    assert splitPart == SplitAt(actions, ex);
    var dividendPart := 1.0;
    if ex in dividendsByEx {
      var close := PreviousClose(bars, ex);
      if close.Failure? {
        return Failure(close.error);
      }
      dividendPart := DividendProduct(dividendsByEx[ex], close.value, splitPart);
    }
    GroupIsBetween(bars, actions, actions, ex);
    r := Success(Factor(splitPart, dividendPart));
  }

  lemma UnanchoredDividend(bars: seq<Bar>, actions: seq<Action>, ex: Date)
    requires bars != [] && ex <= LastDate(bars) && DividendsAt(actions, ex) != [] && Anchor(bars, ex).None?
    ensures !Anchorable(bars, actions)
  {
    DividendsAtMembers(actions, ex);
    var a := DividendsAt(actions, ex)[0];
    assert a in DividendsAt(actions, ex);
  }

  lemma AdjustingDay(actions: seq<Action>, a: Action)
    requires a in actions && Adjusts(a)
    ensures a.Split? ==> HasSplit(actions, a.exDate)
    ensures a.Dividend? ==> DividendsAt(actions, a.exDate) != []
  {
    DividendsAtMembers(actions, a.exDate);
    if a.Split? {
      assert IsSplitAt(a, a.exDate);
    } else {
      assert a in DividendsAt(actions, a.exDate);
    }
  }

  /** The events taken so far: the latest ex-dates, each with its day's factor and an anchor if needed. */
  ghost predicate EventsSoFar(bars: seq<Bar>, actions: seq<Action>, ascending: seq<Date>, events: seq<EventFactor>)
    requires bars != []
  {
    && |events| <= |ascending|
    && forall j :: 0 <= j < |events| ==>
         && events[j].ex == ascending[|ascending| - 1 - j]
         && events[j].factor == Between(bars, actions, actions, events[j].ex - 1, events[j].ex)
         && (DividendsAt(actions, events[j].ex) == [] || Anchor(bars, events[j].ex).Some?)
  }

  lemma NoEventsYet(bars: seq<Bar>, actions: seq<Action>, ascending: seq<Date>)
    requires bars != []
    ensures EventsSoFar(bars, actions, ascending, [])
  {
  }

  lemma NextEvent(bars: seq<Bar>, actions: seq<Action>, ascending: seq<Date>, events: seq<EventFactor>, factor: Factor)
    requires bars != [] && EventsSoFar(bars, actions, ascending, events) && |events| < |ascending|
    requires var ex := ascending[|ascending| - 1 - |events|];
             && factor == Between(bars, actions, actions, ex - 1, ex)
             && (DividendsAt(actions, ex) == [] || Anchor(bars, ex).Some?)
    ensures EventsSoFar(bars, actions, ascending, events + [EventFactor(ascending[|ascending| - 1 - |events|], factor)])
  {
  }

  /** One event for every ex-date up to the last bar, in falling order, is the whole event list. */
  lemma EventsComplete(bars: seq<Bar>, actions: seq<Action>, keys: set<Date>, ascending: seq<Date>, events: seq<EventFactor>)
    requires bars != [] && |events| == |ascending|
    requires forall d :: d in keys <==> d <= LastDate(bars) && (HasSplit(actions, d) || DividendsAt(actions, d) != [])
    requires forall d :: d in ascending <==> d in keys
    requires forall i, j :: 0 <= i < j < |ascending| ==> ascending[i] < ascending[j]
    requires EventsSoFar(bars, actions, ascending, events)
    ensures EventList(bars, actions, events) && Anchorable(bars, actions)
  {
    hide Between;
    hide DividendsAt;
    hide HasSplit;
    hide Anchor;
    var n := |ascending|;
    forall a | a in actions && Adjusts(a) && a.exDate <= LastDate(bars)
      ensures exists j :: 0 <= j < n && events[j].ex == a.exDate
      ensures a.Dividend? ==> Anchor(bars, a.exDate).Some?
    {
      AdjustingDay(actions, a);
      assert a.exDate in ascending;
      var k :| 0 <= k < n && ascending[k] == a.exDate;
      assert events[n - 1 - k].ex == a.exDate;
    }
    forall i | 0 <= i < n
      ensures events[i].ex <= LastDate(bars)
    {
      assert ascending[n - 1 - i] in ascending;
    }
  }

  /** The loop over event dates, latest first. */
  method ListEvents(bars: seq<Bar>, actions: seq<Action>) returns (r: Result<seq<EventFactor>, AdjustmentError>)
    requires bars != [] && DateOrdered(bars)
    ensures r.Success? <==> Anchorable(bars, actions)
    ensures r.Failure? ==> r == Failure(NoAnchor)
    ensures r.Success? ==> EventList(bars, actions, r.value)
  {
    hide *;
    var splitsByEx, dividendsByEx := GroupActions(actions, LastDate(bars));
    var keys := splitsByEx.Keys + dividendsByEx.Keys;
    var ascending := Sorting.Ascending(keys);
    Sorting.AscendingProperties(keys);
    var n := |ascending|;
    var events: seq<EventFactor> := [];
    NoEventsYet(bars, actions, ascending);
    for i := 0 to n
      invariant |events| == i && EventsSoFar(bars, actions, ascending, events)
    {
      var ex := ascending[n - 1 - i];
      assert ex in keys;
      var factor := EventAt(bars, actions, splitsByEx, dividendsByEx, ex);
      if factor.Failure? {
        UnanchoredDividend(bars, actions, ex);
        return Failure(factor.error);
      }
      NextEvent(bars, actions, ascending, events, factor.value);
      events := events + [EventFactor(ex, factor.value)];
    }
    EventsComplete(bars, actions, keys, ascending, events);
    r := Success(events);
  }

  /** The lower end of the interval the first `k` events cover, up to the last bar. */
  ghost function Reach(bars: seq<Bar>, events: seq<EventFactor>, k: nat): Date
    requires bars != [] && k <= |events|
  {
    if k == 0 then LastDate(bars) else events[k - 1].ex - 1
  }

  /** Taking one more event extends the accumulated product past it. */
  lemma AccumulateEvent(bars: seq<Bar>, actions: seq<Action>, events: seq<EventFactor>, k: nat)
    requires bars != [] && EventList(bars, actions, events) && k < |events|
    ensures Between(bars, actions, actions, Reach(bars, events, k + 1), LastDate(bars))
         == Compose(Between(bars, actions, actions, Reach(bars, events, k), LastDate(bars)), events[k].factor)
  {
    hide Compose;
    var lo, mid, hi, last := events[k].ex - 1, events[k].ex, Reach(bars, events, k), LastDate(bars);
    BetweenSplits(bars, actions, actions, lo, mid, last);
    BetweenSplits(bars, actions, actions, mid, hi, last);
    NothingBetween(bars, actions, events, k, mid);
    var f, g := events[k].factor, Between(bars, actions, actions, hi, last);
    ComposeLaws(f, g, ONE);
    ComposeLaws(g, f, ONE);
  }

  /** No adjusting action lies between an event (or a date past it) and the next one. */
  lemma NothingBetween(bars: seq<Bar>, actions: seq<Action>, events: seq<EventFactor>, k: nat, lo: Date)
    requires bars != [] && EventList(bars, actions, events) && k <= |events|
    requires k < |events| ==> events[k].ex <= lo
    requires lo <= Reach(bars, events, k)
    ensures Between(bars, actions, actions, lo, Reach(bars, events, k)) == ONE
  {
    forall a | a in actions && Adjusts(a)
      ensures !(lo < a.exDate <= Reach(bars, events, k))
    {
      if a.exDate <= LastDate(bars) {
        var i :| 0 <= i < |events| && events[i].ex == a.exDate;
        if i < k {
          assert i == k - 1 || events[i].ex > events[k - 1].ex;
        } else {
          assert i == k || events[i].ex < events[k].ex;
        }
      }
    }
    BetweenEmpty(bars, actions, actions, lo, Reach(bars, events, k));
  }

  lemma SweptFactor(bars: seq<Bar>, actions: seq<Action>, events: seq<EventFactor>, k: nat, d: Date)
    requires bars != [] && EventList(bars, actions, events) && k <= |events|
    requires k < |events| ==> events[k].ex <= d
    requires d <= Reach(bars, events, k)
    ensures Between(bars, actions, actions, Reach(bars, events, k), LastDate(bars)) == FactorAt(bars, actions, d)
  {
    NothingBetween(bars, actions, events, k, d);
    BetweenSplits(bars, actions, actions, d, Reach(bars, events, k), LastDate(bars));
    ComposeLaws(Between(bars, actions, actions, Reach(bars, events, k), LastDate(bars)), ONE, ONE);
  }

  /** The backward sweep: walking the bars from the last to the first, one pointer takes each event
      as soon as the walk is before its ex-date. It computes the per-date definition. */
  method ComputeFactors(bars: seq<Bar>, actions: seq<Action>) returns (r: Result<map<Date, Factor>, AdjustmentError>)
    requires bars != [] && DateOrdered(bars)
    ensures r == Factors(bars, actions)
  {
    hide *;
    var listed := ListEvents(bars, actions);
    if listed.Failure? {
      FactorsFail(bars, actions);
      return Failure(listed.error);
    }
    var events := listed.value;
    var cumulative := ONE;
    var index := 0;
    var exact: map<Date, Factor> := map[];
    SweepBegins(bars, actions, events);
    var i := |bars|;
    while i > 0
      invariant 0 <= i <= |bars| && index <= |events|
      invariant cumulative == Between(bars, actions, actions, Reach(bars, events, index), LastDate(bars))
      invariant i < |bars| ==> bars[i].date <= Reach(bars, events, index)
      invariant i == |bars| ==> index == 0
      invariant exact.Keys == DateSet(bars[i..])
      invariant forall d :: d in exact ==> exact[d] == FactorAt(bars, actions, d)
    {
      i := i - 1;
      var date := bars[i].date;
      StepsBack(bars, events, i, index);
      while index < |events| && events[index].ex > date
        invariant index <= |events|
        invariant cumulative == Between(bars, actions, actions, Reach(bars, events, index), LastDate(bars))
        invariant date <= Reach(bars, events, index)
      {
        AccumulateEvent(bars, actions, events, index);
        ReachAfter(bars, events, index);
        cumulative := Compose(cumulative, events[index].factor);
        index := index + 1;
      }
      SweptFactor(bars, actions, events, index, date);
      exact := exact[date := cumulative];
      DateSetStep(bars, i);
    }
    assert bars[0..] == bars;
    SweepEnds(bars, actions, exact);
    r := Success(exact);
  }

  lemma FactorsFail(bars: seq<Bar>, actions: seq<Action>)
    requires bars != [] && !Anchorable(bars, actions)
    ensures Factors(bars, actions) == Failure(NoAnchor)
  {
  }

  lemma SweepBegins(bars: seq<Bar>, actions: seq<Action>, events: seq<EventFactor>)
    requires bars != []
    ensures ONE == Between(bars, actions, actions, Reach(bars, events, 0), LastDate(bars))
    ensures DateSet(bars[|bars|..]) == {}
  {
    BetweenEmpty(bars, actions, actions, LastDate(bars), LastDate(bars));
  }

  lemma SweepEnds(bars: seq<Bar>, actions: seq<Action>, exact: map<Date, Factor>)
    requires bars != [] && Anchorable(bars, actions)
    requires exact.Keys == DateSet(bars) && forall d :: d in exact ==> exact[d] == FactorAt(bars, actions, d)
    ensures Success(exact) == Factors(bars, actions)
  {
    assert exact == map d | d in DateSet(bars) :: FactorAt(bars, actions, d);
  }

  lemma StepsBack(bars: seq<Bar>, events: seq<EventFactor>, i: nat, index: nat)
    requires DateOrdered(bars) && i < |bars| && index <= |events|
    requires i + 1 < |bars| ==> bars[i + 1].date <= Reach(bars, events, index)
    requires i + 1 == |bars| ==> index == 0
    ensures bars[i].date <= Reach(bars, events, index)
  {
    assert i + 1 < |bars| ==> DateLeq(bars[i], bars[i + 1]);
  }

  lemma ReachAfter(bars: seq<Bar>, events: seq<EventFactor>, index: nat)
    requires bars != [] && index < |events|
    ensures Reach(bars, events, index + 1) == events[index].ex - 1
  {
  }

  lemma DateSetStep(bars: seq<Bar>, i: nat)
    requires i < |bars|
    ensures DateSet(bars[i..]) == DateSet(bars[i + 1..]) + {bars[i].date}
  {
    assert bars[i..] == [bars[i]] + bars[i + 1..];
  }
}
