/** What the liquidity and price lookups answer, in terms of the bars alone. */
module Lookups {
  import opened Domain
  import opened Markets
  import Context
  import Sorting

  // ----- the median

  function AtMost(values: seq<real>, x: real): (n: nat)
    ensures n <= |values|
  {
    if values == [] then 0 else (if values[0] <= x then 1 else 0) + AtMost(values[1..], x)
  }

  function AtLeast(values: seq<real>, x: real): (n: nat)
    ensures n <= |values|
  {
    if values == [] then 0 else (if values[0] >= x then 1 else 0) + AtLeast(values[1..], x)
  }

  lemma {:induction false} InsertCounts(v: real, s: seq<real>, x: real)
    ensures AtMost(Sorting.Insert(v, s, RealLeq), x) == AtMost(s, x) + (if v <= x then 1 else 0)
    ensures AtLeast(Sorting.Insert(v, s, RealLeq), x) == AtLeast(s, x) + (if v >= x then 1 else 0)
  {
    if s != [] && !RealLeq(v, s[0]) {
      InsertCounts(v, s[1..], x);
      assert ([s[0]] + Sorting.Insert(v, s[1..], RealLeq))[1..] == Sorting.Insert(v, s[1..], RealLeq);
    } else {
      assert ([v] + s)[1..] == s;
    }
  }

  lemma {:induction false} SortCounts(values: seq<real>, x: real)
    ensures AtMost(Sorting.SortBy(values, RealLeq), x) == AtMost(values, x)
    ensures AtLeast(Sorting.SortBy(values, RealLeq), x) == AtLeast(values, x)
  {
    if values != [] {
      SortCounts(values[1..], x);
      InsertCounts(values[0], Sorting.SortBy(values[1..], RealLeq), x);
    }
  }

  /** At least the first `k + 1` entries of an ascending list are at most the one at `k`. */
  lemma {:induction false} LowPart(s: seq<real>, k: nat, x: real)
    requires k <= |s| && forall i :: 0 <= i < k ==> s[i] <= x
    ensures AtMost(s, x) >= k
  {
    if k > 0 {
      LowPart(s[1..], k - 1, x);
    }
  }

  lemma {:induction false} HighPart(s: seq<real>, k: nat, x: real)
    requires k <= |s| && forall i :: k <= i < |s| ==> s[i] >= x
    ensures AtLeast(s, x) >= |s| - k
  {
    if s != [] {
      HighPart(s[1..], if k > 0 then k - 1 else 0, x);
    }
  }

  /** The value is a middle one: the given numbers of values lie on either side, itself included. */
  ghost predicate Ranks(values: seq<real>, x: real, low: int, high: int) {
    x in values && AtMost(values, x) >= low && AtLeast(values, x) >= high
  }

  /** The median is midway between the lower and the upper middle value; of an odd number of values
      these are one and the same, with as many values on one side as on the other. */
  lemma MedianIsMiddle(values: seq<real>) returns (lo: real, hi: real)
    requires values != []
    ensures Median(values) == (lo + hi) / 2.0 && lo <= hi
    ensures var n := |values|; Ranks(values, lo, (n + 1) / 2, n / 2 + 1) && Ranks(values, hi, n / 2 + 1, (n + 1) / 2)
    ensures |values| % 2 == 1 ==> lo == hi
    ensures 2 * AtMost(values, Median(values)) >= |values| && 2 * AtLeast(values, Median(values)) >= |values|
  {
    var s := Sorting.SortBy(values, RealLeq);
    var n := |s|;
    Sorting.SortedSortBy(values, RealLeq);
    Sorting.SameElements(s, values);
    lo, hi := s[(n - 1) / 2], s[n / 2];
    AroundPosition(s, (n - 1) / 2);
    assert Median(values) == (lo + hi) / 2.0;
    hide Median;
    hide Sorting.Sorted;
    hide AtMost;
    hide AtLeast;
    MiddleRanks(values, s, (n - 1) / 2);
    MiddleRanks(values, s, n / 2);
    AtMostGrows(values, lo, Median(values));
    AtLeastGrows(values, Median(values), hi);
  }

  lemma MiddleRanks(values: seq<real>, s: seq<real>, k: nat)
    requires s == Sorting.SortBy(values, RealLeq) && Sorting.Sorted(s, RealLeq) && |s| == |values| && k < |s|
    requires forall x :: x in s <==> x in values
    ensures Ranks(values, s[k], k + 1, |s| - k)
  {
    SortCounts(values, s[k]);
    hide Sorting.SortBy;
    hide AtMost;
    hide AtLeast;
    AroundPosition(s, k);
    hide Sorting.Sorted;
    LowPart(s, k + 1, s[k]);
    HighPart(s, k, s[k]);
  }

  lemma AroundPosition(s: seq<real>, k: nat)
    requires Sorting.Sorted(s, RealLeq) && k < |s|
    ensures forall i :: 0 <= i < k + 1 ==> s[i] <= s[k]
    ensures forall i :: k <= i < |s| ==> s[i] >= s[k]
  {
    forall i | 0 <= i < |s|
      ensures i < k + 1 ==> s[i] <= s[k]
      ensures i >= k ==> s[i] >= s[k]
    {
      assert i < k ==> RealLeq(s[i], s[k]);
      assert k < i ==> RealLeq(s[k], s[i]);
    }
  }

  lemma {:induction false} AtMostGrows(values: seq<real>, x: real, y: real)
    requires x <= y
    ensures AtMost(values, x) <= AtMost(values, y)
  {
    if values != [] {
      AtMostGrows(values[1..], x, y);
    }
  }

  lemma {:induction false} AtLeastGrows(values: seq<real>, x: real, y: real)
    requires x <= y
    ensures AtLeast(values, y) <= AtLeast(values, x)
  {
    if values != [] {
      AtLeastGrows(values[1..], x, y);
    }
  }

  // ----- the trailing window

  /** The security's bars by the day are the older ones and the window: nothing older is dated after
      anything in the window, which holds all of them or a full count. */
  ghost predicate TrailingWindow(m: Market, sid: SecurityId, day: Date, older: seq<Bar>, window: seq<Bar>) {
    && multiset(older + window) == multiset(UpTo(BarsOf(m.bars, sid), day))
    && |window| <= IMPACT_WINDOW_SESSIONS && (older != [] ==> |window| == IMPACT_WINDOW_SESSIONS)
    && forall a, b :: a in older && b in window ==> a.date <= b.date
  }

  /** Trailing liquidity is the median traded value of the security's last bars by the day, up to a full
      window of them, and is unknown exactly when there is none. */
  lemma TrailingLiquidity(m: Market, sid: SecurityId, day: Date) returns (older: seq<Bar>, window: seq<Bar>)
    ensures TrailingWindow(m, sid, day, older, window)
    ensures MedianTradedValue(m, sid, day) == if window == [] then None else Some(Median(Values(window)))
    ensures window == [] <==> forall b :: !PrintedBy(m.bars, sid, day, b)
  {
    var own, series := BarsOf(m.bars, sid), Traded(m.bars, sid);
    var index := BisectRight(series, day);
    var cut := Max(0, index - IMPACT_WINDOW_SESSIONS);
    older, window := series[..cut], series[cut..index];
    TradedByTheDay(m.bars, sid, day);
    ByTheDay(m.bars, sid, day);
    hide BarsOf;
    hide Traded;
    hide UpTo;
    hide BisectRight;
    hide Median;
    hide PrintedBy;
    assert older + window == series[..index];
    OlderFirst(series, cut, index);
    if window != [] {
      assert window[0] in older + window;
      InMultiset(older + window, UpTo(own, day), window[0]);
    }
    if b :| PrintedBy(m.bars, sid, day, b) {
      InMultiset(UpTo(own, day), older + window, b);
    }
  }

  lemma TradedByTheDay(bars: seq<Bar>, sid: SecurityId, day: Date)
    ensures var series := Traded(bars, sid);
            DateOrdered(series) && multiset(series[..BisectRight(series, day)]) == multiset(UpTo(BarsOf(bars, sid), day))
  {
    OrdersAreDateFirst();
    SeriesDateOrdered(BarsOf(bars, sid), TradedLeq);
    BisectRightIsUpTo(Traded(bars, sid), day);
    UpToSortBy(BarsOf(bars, sid), TradedLeq, day);
  }

  lemma OlderFirst(series: seq<Bar>, cut: nat, index: nat)
    requires DateOrdered(series) && cut <= index <= |series|
    ensures forall a, b :: a in series[..cut] && b in series[cut..index] ==> a.date <= b.date
  {
    forall a, b | a in series[..cut] && b in series[cut..index]
      ensures a.date <= b.date
    {
      var i :| 0 <= i < cut && series[i] == a;
      var j :| cut <= j < index && series[j] == b;
      assert DateLeq(series[i], series[j]);
    }
  }

  lemma InMultiset(s: seq<Bar>, t: seq<Bar>, b: Bar)
    requires multiset(s) == multiset(t) && b in s
    ensures b in t
  {
    assert b in multiset(s);
  }

  lemma {:induction false} InUpTo(bars: seq<Bar>, day: Date, b: Bar)
    ensures b in UpTo(bars, day) <==> b in bars && b.date <= day
  {
    if bars != [] {
      InUpTo(bars[1..], day, b);
      assert bars == [bars[0]] + bars[1..];
    }
  }

  lemma ByTheDay(bars: seq<Bar>, sid: SecurityId, day: Date)
    ensures forall b :: b in UpTo(BarsOf(bars, sid), day) <==> PrintedBy(bars, sid, day, b)
  {
    InBarsOf(bars, sid);
    forall b
      ensures b in UpTo(BarsOf(bars, sid), day) <==> PrintedBy(bars, sid, day, b)
    {
      InUpTo(BarsOf(bars, sid), day, b);
    }
  }

  // ----- a context's price

  /** A bar of the security recent enough to price it at the clock. */
  predicate Fresh(m: Market, clock: Date, sid: SecurityId, b: Bar) {
    b in m.bars && b.sid == sid && clock - Context.MARK_STALENESS_DAYS <= b.date <= clock
  }

  /** A context prices a security exactly when it has a bar within the staleness limit, and then at the
      close of one dated latest by the clock. */
  lemma PricedExactlyWhen(m: Market, clock: Date, sid: SecurityId)
    ensures var price := Context.Price(m, clock, sid);
            if exists b :: Fresh(m, clock, sid, b)
            then price.Some? && exists b :: Fresh(m, clock, sid, b) && b.close == price.value
                                            && forall c :: Fresh(m, clock, sid, c) ==> c.date <= b.date
            else price.None?
  {
    LastPrintMeaning(m, sid, clock);
    if b :| Fresh(m, clock, sid, b) {
      assert PrintedBy(m.bars, sid, clock, b);
      var p := LastPrint(m, sid, clock).value;
      var c :| PrintedBy(m.bars, sid, clock, c) && c.date == p.date && c.close == p.close;
      assert Fresh(m, clock, sid, c);
      assert forall d :: Fresh(m, clock, sid, d) ==> PrintedBy(m.bars, sid, clock, d);
    } else if LastPrint(m, sid, clock).Some? {
      var p := LastPrint(m, sid, clock).value;
      var c :| PrintedBy(m.bars, sid, clock, c) && c.date == p.date && c.close == p.close;
      assert !Fresh(m, clock, sid, c);
    }
  }
}
