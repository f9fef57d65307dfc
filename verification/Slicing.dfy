/** Cutting a security's history to a window leaves every in-window ratio exactly as it was. */
module Slicing {
  import opened Arithmetic
  import opened Domain
  import opened Markets
  import opened Context
  import opened Adjustments
  import Sorting

  /** A close on the total-return basis. */
  function Adjusted(close: real, f: Factor): real {
    Times(Times(close, f.split), f.dividend)
  }

  /** Both factors together. */
  function Whole(f: Factor): real {
    Times(f.split, f.dividend)
  }

  lemma AdjustedIsWhole(close: real, f: Factor)
    ensures Adjusted(close, f) == Times(close, Whole(f))
  {
    TimesAssociates(close, f.split, f.dividend);
  }

  lemma WholeOfCompose(a: Factor, b: Factor)
    ensures Whole(Compose(a, b)) == Times(Whole(a), Whole(b))
  {
    FourFactors(a.split, b.split, a.dividend, b.dividend);
  }

  lemma FourFactors(x: real, y: real, z: real, w: real)
    ensures Times(Times(x, y), Times(z, w)) == Times(Times(x, z), Times(y, w))
  {
  }

  lemma CrossMultiply(x: real, y: real, b: real, s: real, f: real)
    ensures Times(Times(x, Times(b, s)), Times(y, f)) == Times(Times(y, s), Times(x, Times(b, f)))
  {
    assert (x * (b * s)) * (y * f) == (y * s) * (x * (b * f));
  }

  // ----- positions in a window

  lemma {:induction false} CountBeforeIs(dates: seq<Date>, ex: Date, k: nat)
    requires k <= |dates|
    requires forall t :: 0 <= t < k ==> dates[t] < ex
    requires k < |dates| ==> dates[k] >= ex
    ensures CountBefore(dates, ex) == k
  {
    if k > 0 {
      CountBeforeIs(dates[1..], ex, k - 1);
    }
  }

  lemma {:induction false} CountBeforeBounds(dates: seq<Date>, ex: Date)
    ensures var k := CountBefore(dates, ex);
            && (forall t :: 0 <= t < k ==> dates[t] < ex)
            && (k < |dates| ==> dates[k] >= ex)
  {
    if dates != [] && dates[0] < ex {
      CountBeforeBounds(dates[1..], ex);
    }
  }

  /** Inside a window's span the anchor bar is the one the full history gives. */
  lemma AnchorInWindow(bars: seq<Bar>, i: nat, j: nat, ex: Date)
    requires DateOrdered(bars) && i < j <= |bars|
    requires bars[i].date < ex <= bars[j - 1].date
    ensures Anchor(bars[i..j], ex) == Anchor(bars, ex)
    ensures Place(Dates(bars[i..j]), ex).Anchored? ==> Anchor(bars, ex).Some?
  {
    var window := bars[i..j];
    var k := CountBefore(Dates(window), ex);
    CountBeforeBounds(Dates(window), ex);
    assert Dates(window)[0] == bars[i].date;
    assert Dates(window)[j - 1 - i] == bars[j - 1].date;
    assert k <= j - 1 - i;
    forall t | 0 <= t < i + k
      ensures Dates(bars)[t] < ex
    {
      if t >= i {
        assert Dates(window)[t - i] == Dates(bars)[t];
      } else {
        assert DateLeq(bars[t], bars[i]);
      }
    }
    assert Dates(bars)[i + k] == Dates(window)[k];
    CountBeforeIs(Dates(bars), ex, i + k);
  }

  // ----- the window keeps every event between two of its dates

  /** No candidate falls inside the window without an anchor. */
  ghost predicate NotSuspended(window: seq<Bar>, candidates: seq<Action>) {
    forall a :: a in candidates ==> !Place(Dates(window), a.exDate).Unanchorable?
  }

  function AnchoredIn(window: seq<Bar>, candidates: seq<Action>): seq<Action> {
    if candidates == [] then []
    else if Place(Dates(window), candidates[0].exDate).Anchored? then [candidates[0]] + AnchoredIn(window, candidates[1..])
    else AnchoredIn(window, candidates[1..])
  }

  ghost predicate InSpan(window: seq<Bar>, lo: Date, hi: Date) {
    window != [] && window[0].date <= lo <= hi <= window[|window| - 1].date
  }

  lemma SpannedIsKept(window: seq<Bar>, candidates: seq<Action>, a: Action)
    requires window != [] && NotSuspended(window, candidates) && a in candidates
    requires window[0].date < a.exDate <= window[|window| - 1].date
    ensures Place(Dates(window), a.exDate).Anchored?
  {
  }

  lemma {:induction false} SplitsKept(window: seq<Bar>, candidates: seq<Action>, asOf: Instant, ex: Date)
    requires window != [] && NotSuspended(window, candidates)
    requires window[0].date < ex <= window[|window| - 1].date
    ensures SplitAt(Known(AnchoredIn(window, candidates), asOf), ex) == SplitAt(Known(candidates, asOf), ex)
  {
    hide Place;
    if candidates != [] {
      SplitsKept(window, candidates[1..], asOf, ex);
      if candidates[0].exDate == ex {
        SpannedIsKept(window, candidates, candidates[0]);
      }
    }
  }

  ghost predicate SameFactor(bars: seq<Bar>, allFull: seq<Action>, window: seq<Bar>, allKept: seq<Action>, a: Action) {
    ActionFactor(bars, allFull, a) == ActionFactor(window, allKept, a)
  }

  lemma {:induction false} BetweenKept(bars: seq<Bar>, allFull: seq<Action>, window: seq<Bar>, allKept: seq<Action>,
                                       candidates: seq<Action>, asOf: Instant, lo: Date, hi: Date)
    requires InSpan(window, lo, hi) && NotSuspended(window, candidates)
    requires forall a :: a in candidates && lo < a.exDate <= hi ==> SameFactor(bars, allFull, window, allKept, a)
    ensures Between(bars, allFull, Known(candidates, asOf), lo, hi)
         == Between(window, allKept, Known(AnchoredIn(window, candidates), asOf), lo, hi)
  {
    hide ActionFactor;
    hide Place;
    hide Compose;
    if candidates != [] {
      var a := candidates[0];
      assert a in candidates;
      BetweenKept(bars, allFull, window, allKept, candidates[1..], asOf, lo, hi);
      if lo < a.exDate <= hi {
        SpannedIsKept(window, candidates, a);
        assert SameFactor(bars, allFull, window, allKept, a);
      }
    }
  }

  lemma FactorsAgreeInWindow(bars: seq<Bar>, i: nat, j: nat, candidates: seq<Action>, asOf: Instant, a: Action)
    requires DateOrdered(bars) && i < j <= |bars| && NotSuspended(bars[i..j], candidates)
    requires bars[i].date < a.exDate <= bars[j - 1].date
    ensures SameFactor(bars, Known(candidates, asOf), bars[i..j], Known(AnchoredIn(bars[i..j], candidates), asOf), a)
  {
    AnchorInWindow(bars, i, j, a.exDate);
    SplitsKept(bars[i..j], candidates, asOf, a.exDate);
  }

  lemma {:induction false} KnownMembers(actions: seq<Action>, asOf: Instant)
    ensures forall a :: a in Known(actions, asOf) <==> a in actions && a.availableAt <= asOf
  {
    if actions != [] {
      KnownMembers(actions[1..], asOf);
      assert actions == [actions[0]] + actions[1..];
    }
  }

  lemma {:induction false} AnchoredInMembers(window: seq<Bar>, candidates: seq<Action>)
    ensures forall a :: a in AnchoredIn(window, candidates) <==> a in candidates && Place(Dates(window), a.exDate).Anchored?
  {
    hide Place;
    if candidates != [] {
      AnchoredInMembers(window, candidates[1..]);
      assert candidates == [candidates[0]] + candidates[1..];
    }
  }

  /** Computing factors on the slice never meets a missing anchor. */
  lemma SliceIsAnchorable(bars: seq<Bar>, i: nat, j: nat, candidates: seq<Action>, asOf: Instant)
    requires DateOrdered(bars) && i < j <= |bars|
    ensures Anchorable(bars[i..j], Known(AnchoredIn(bars[i..j], candidates), asOf))
  {
    var window := bars[i..j];
    KnownMembers(AnchoredIn(window, candidates), asOf);
    AnchoredInMembers(window, candidates);
    forall a | a in Known(AnchoredIn(window, candidates), asOf)
      ensures Anchor(window, a.exDate).Some?
    {
      assert Dates(window)[0] == bars[i].date && Dates(window)[|window| - 1] == bars[j - 1].date;
      AnchorInWindow(bars, i, j, a.exDate);
    }
  }

  /** For a security the slicer keeps, computing on the slice always succeeds, and the ratio of any
      two in-window adjusted closes is the full history's, in cross-multiplied form. */
  lemma SlicingIsExact(bars: seq<Bar>, i: nat, j: nat, candidates: seq<Action>, asOf: Instant, p: nat, q: nat)
    requires DateOrdered(bars) && i <= p <= q < j <= |bars| && NotSuspended(bars[i..j], candidates)
    ensures var sliced := Factors(bars[i..j], Known(AnchoredIn(bars[i..j], candidates), asOf));
            var full := Factors(bars, Known(candidates, asOf));
            var dp, dq := bars[p].date, bars[q].date;
            && sliced.Success? && dp in sliced.value && dq in sliced.value
            && (full.Success? ==>
                  && dp in full.value && dq in full.value
                  && Times(Adjusted(bars[p].close, sliced.value[dp]), Adjusted(bars[q].close, full.value[dq]))
                     == Times(Adjusted(bars[q].close, sliced.value[dq]), Adjusted(bars[p].close, full.value[dp])))
  {
    var window := bars[i..j];
    var allFull, allKept := Known(candidates, asOf), Known(AnchoredIn(window, candidates), asOf);
    var dp, dq := bars[p].date, bars[q].date;
    SliceIsAnchorable(bars, i, j, candidates, asOf);
    WindowDates(bars, i, j, p, q);
    BetweenInWindow(bars, i, j, candidates, asOf, dp, dq);
    RatiosAgree(bars, allFull, window, allKept, dp, dq, bars[p].close, bars[q].close);
    FactorsOnDate(window, allKept, dp);
    FactorsOnDate(window, allKept, dq);
    FactorsOnDate(bars, allFull, dp);
    FactorsOnDate(bars, allFull, dq);
    hide *;
  }

  /** Where two positions of a window lie among the dates of the window and of the whole series. */
  lemma WindowDates(bars: seq<Bar>, i: nat, j: nat, p: nat, q: nat)
    requires DateOrdered(bars) && i <= p <= q < j <= |bars|
    ensures bars[i].date <= bars[p].date <= bars[q].date <= bars[j - 1].date == LastDate(bars[i..j]) <= LastDate(bars)
    ensures bars[p].date in DateSet(bars[i..j]) && bars[q].date in DateSet(bars[i..j])
    ensures bars[p].date in DateSet(bars) && bars[q].date in DateSet(bars)
  {
    var window := bars[i..j];
    assert window[p - i] in window && window[q - i] in window && bars[p] in bars && bars[q] in bars;
    assert p == q || DateLeq(bars[p], bars[q]);
    assert p == i || DateLeq(bars[i], bars[p]);
    assert q == j - 1 || DateLeq(bars[q], bars[j - 1]);
    assert j == |bars| || DateLeq(bars[j - 1], bars[|bars| - 1]);
  }

  lemma BetweenInWindow(bars: seq<Bar>, i: nat, j: nat, candidates: seq<Action>, asOf: Instant, lo: Date, hi: Date)
    requires DateOrdered(bars) && i < j <= |bars| && NotSuspended(bars[i..j], candidates)
    requires bars[i].date <= lo <= hi <= bars[j - 1].date
    ensures var allFull, allKept := Known(candidates, asOf), Known(AnchoredIn(bars[i..j], candidates), asOf);
            Between(bars, allFull, allFull, lo, hi) == Between(bars[i..j], allKept, allKept, lo, hi)
  {
    var window := bars[i..j];
    var allFull, allKept := Known(candidates, asOf), Known(AnchoredIn(window, candidates), asOf);
    hide Between;
    forall a | a in candidates && lo < a.exDate <= hi
      ensures SameFactor(bars, allFull, window, allKept, a)
    {
      FactorsAgreeInWindow(bars, i, j, candidates, asOf, a);
    }
    BetweenKept(bars, allFull, window, allKept, candidates, asOf, lo, hi);
  }

  lemma FactorsOnDate(bars: seq<Bar>, actions: seq<Action>, d: Date)
    requires bars != [] && d in DateSet(bars)
    ensures Factors(bars, actions).Success? <==> Anchorable(bars, actions)
    ensures Factors(bars, actions).Success? ==>
              d in Factors(bars, actions).value && Factors(bars, actions).value[d] == FactorAt(bars, actions, d)
  {
  }

  lemma RatiosAgree(bars: seq<Bar>, allFull: seq<Action>, window: seq<Bar>, allKept: seq<Action>, dp: Date, dq: Date,
                    cp: real, cq: real)
    requires bars != [] && window != [] && dp <= dq <= LastDate(window) && dq <= LastDate(bars)
    requires Between(bars, allFull, allFull, dp, dq) == Between(window, allKept, allKept, dp, dq)
    ensures Times(Adjusted(cp, FactorAt(window, allKept, dp)), Adjusted(cq, FactorAt(bars, allFull, dq)))
         == Times(Adjusted(cq, FactorAt(window, allKept, dq)), Adjusted(cp, FactorAt(bars, allFull, dp)))
  {
    hide *;
    var b := Between(bars, allFull, allFull, dp, dq);
    var s, f := FactorAt(window, allKept, dq), FactorAt(bars, allFull, dq);
    FactorStep(window, allKept, dp, dq);
    FactorStep(bars, allFull, dp, dq);
    WholeOfCompose(b, s);
    WholeOfCompose(b, f);
    AdjustedIsWhole(cp, Compose(b, s));
    AdjustedIsWhole(cp, Compose(b, f));
    AdjustedIsWhole(cq, s);
    AdjustedIsWhole(cq, f);
    CrossMultiply(cp, cq, Whole(b), Whole(s), Whole(f));
  }

  // ----- the slicer the context uses

  lemma {:induction false} BarsOfConcat(a: seq<Bar>, b: seq<Bar>, sid: SecurityId)
    ensures BarsOf(a + b, sid) == BarsOf(a, sid) + BarsOf(b, sid)
  {
    if a == [] {
      assert a + b == b;
    } else {
      assert (a + b)[1..] == a[1..] + b;
      BarsOfConcat(a[1..], b, sid);
    }
  }

  lemma {:induction false} ActionsOfConcat(a: seq<Action>, b: seq<Action>, sid: SecurityId)
    ensures ActionsOf(a + b, sid) == ActionsOf(a, sid) + ActionsOf(b, sid)
  {
    if a == [] {
      assert a + b == b;
    } else {
      assert (a + b)[1..] == a[1..] + b;
      ActionsOfConcat(a[1..], b, sid);
    }
  }

  lemma {:induction false} BarsOfUniform(bars: seq<Bar>, own: SecurityId, sid: SecurityId)
    requires forall b :: b in bars ==> b.sid == own
    ensures BarsOf(bars, sid) == if own == sid then bars else []
  {
    if bars != [] {
      assert bars[0] in bars;
      BarsOfUniform(bars[1..], own, sid);
    }
  }

  lemma {:induction false} ActionsOfOf(actions: seq<Action>, own: SecurityId, sid: SecurityId)
    ensures ActionsOf(ActionsOf(actions, own), sid) == if own == sid then ActionsOf(actions, own) else []
  {
    if actions != [] {
      ActionsOfOf(actions[1..], own, sid);
    }
  }

  lemma PanelMembers(bars: seq<Bar>, sid: SecurityId)
    ensures DateOrdered(Panel(bars, sid))
    ensures forall b :: b in Panel(bars, sid) ==> b.sid == sid
  {
    OrdersAreDateFirst();
    SeriesDateOrdered(BarsOf(bars, sid), DateLeq);
    InBarsOf(bars, sid);
    Sorting.SameElements(Panel(bars, sid), BarsOf(bars, sid));
  }

  /** The window the slicer cuts from one security's panel. */
  function WindowOf(bars: seq<Bar>, sid: SecurityId, start: Date, end: Date): seq<Bar> {
    var s := Panel(bars, sid);
    Slice(s, BisectLeft(s, start), BisectRight(s, end))
  }

  lemma WindowMembers(bars: seq<Bar>, sid: SecurityId, start: Date, end: Date)
    ensures forall b :: b in WindowOf(bars, sid, start, end) ==> b.sid == sid
  {
    PanelMembers(bars, sid);
    hide Panel;
  }

  lemma {:induction false} GatheredBars(bars: seq<Bar>, ids: seq<SecurityId>, sid: SecurityId, start: Date, end: Date)
    requires forall i, j :: 0 <= i < j < |ids| ==> ids[i] != ids[j]
    ensures BarsOf(BarsFor(bars, ids, start, end), sid) == if sid in ids then WindowOf(bars, sid, start, end) else []
  {
    if ids != [] {
      GatheredBars(bars, ids[1..], sid, start, end);
      WindowMembers(bars, ids[0], start, end);
      var window := WindowOf(bars, ids[0], start, end);
      hide Panel;
      hide Slice;
      hide BarsOf;
      BarsOfUniform(window, ids[0], sid);
      BarsOfConcat(window, BarsFor(bars, ids[1..], start, end), sid);
      assert sid in ids <==> sid == ids[0] || sid in ids[1..];
    }
  }

  lemma {:induction false} GatheredActions(actions: seq<Action>, ids: seq<SecurityId>, sid: SecurityId)
    requires forall i, j :: 0 <= i < j < |ids| ==> ids[i] != ids[j]
    ensures ActionsOf(ActionsFor(actions, ids), sid) == if sid in ids then ActionsOf(actions, sid) else []
  {
    if ids != [] {
      GatheredActions(actions, ids[1..], sid);
      ActionsOfOf(actions, ids[0], sid);
      ActionsOfConcat(ActionsOf(actions, ids[0]), ActionsFor(actions, ids[1..]), sid);
      assert sid in ids <==> sid == ids[0] || sid in ids[1..];
    }
  }

  lemma {:induction false} AnchoredOnlyIsIn(bars: seq<Bar>, candidates: seq<Action>, sid: SecurityId)
    requires forall a :: a in candidates ==> a.sid == sid
    ensures AnchoredOnly(bars, candidates) == AnchoredIn(BarsOf(bars, sid), candidates)
  {
    if candidates != [] {
      assert candidates[0] in candidates;
      AnchoredOnlyIsIn(bars, candidates[1..], sid);
    }
  }

  lemma {:induction false} InActionsOf(actions: seq<Action>, sid: SecurityId)
    ensures forall a :: a in ActionsOf(actions, sid) <==> a in actions && a.sid == sid
  {
    if actions != [] {
      InActionsOf(actions[1..], sid);
      assert actions == [actions[0]] + actions[1..];
    }
  }

  /** What a context's slicer hands over for a security it keeps: a contiguous window of the full
      panel, and exactly the anchored actions. */
  lemma KeptInputs(m: Market, clock: Date, sids: set<SecurityId>, sid: SecurityId) returns (i: nat, j: nat)
    requires sid in sids
    requires BarsOf(SlicedInputs(m, clock, sids).bars, sid) != []
    ensures i < j <= |Panel(m.bars, sid)|
    ensures BarsOf(SlicedInputs(m, clock, sids).bars, sid) == Panel(m.bars, sid)[i..j]
    ensures ActionsOf(SlicedInputs(m, clock, sids).actions, sid)
         == AnchoredIn(Panel(m.bars, sid)[i..j], ActionsOf(m.actions, sid))
    ensures NotSuspended(Panel(m.bars, sid)[i..j], ActionsOf(m.actions, sid))
  {
    var ids := Sorting.Ascending(sids);
    Sorting.AscendingProperties(sids);
    var start := clock - FACTOR_LOOKBACK_DAYS;
    var bars, candidates := BarsFor(m.bars, ids, start, clock), ActionsFor(m.actions, ids);
    var panel := Panel(m.bars, sid);
    i, j := BisectLeft(panel, start), BisectRight(panel, clock);
    var own := ActionsOf(m.actions, sid);
    GatheredBars(m.bars, ids, sid, start, clock);
    GatheredActions(m.actions, ids, sid);
    KeptWholeOrDropped(bars, candidates, sid);
    InActionsOf(m.actions, sid);
    InActionsOf(candidates, sid);
    AnchoredOnlyIsIn(bars, own, sid);
    forall a | a in own
      ensures !Place(Dates(panel[i..j]), a.exDate).Unanchorable?
    {
      assert a in candidates && PlaceIn(bars, a) == Place(Dates(panel[i..j]), a.exDate);
    }
  }

  /** End to end: for every security a context's slicer keeps, factor computation on what it hands
      over succeeds, and any in-window ratio of adjusted closes is the full history's. */
  lemma ContextSlicingIsExact(m: Market, clock: Date, sids: set<SecurityId>, sid: SecurityId, asOf: Instant, p: nat, q: nat)
    requires sid in sids
    requires p <= q < |BarsOf(SlicedInputs(m, clock, sids).bars, sid)|
    ensures var inputs := SlicedInputs(m, clock, sids);
            var window := BarsOf(inputs.bars, sid);
            var sliced := Factors(window, Known(ActionsOf(inputs.actions, sid), asOf));
            var panel := Panel(m.bars, sid);
            && panel != [] && sliced.Success?
            && var full := Factors(panel, Known(ActionsOf(m.actions, sid), asOf));
            var dp, dq := window[p].date, window[q].date;
            && dp in sliced.value && dq in sliced.value
            && (full.Success? ==>
                  && dp in full.value && dq in full.value
                  && Times(Adjusted(window[p].close, sliced.value[dp]), Adjusted(window[q].close, full.value[dq]))
                     == Times(Adjusted(window[q].close, sliced.value[dq]), Adjusted(window[p].close, full.value[dp])))
  {
    hide *;
    var i, j := KeptInputs(m, clock, sids, sid);
    PanelMembers(m.bars, sid);
    SlicingIsExact(Panel(m.bars, sid), i, j, ActionsOf(m.actions, sid), asOf, i + p, i + q);
  }

  // ----- returns

  lemma DividendLeg(c: real, s: real, d: real, w: real, c2: real)
    requires Times(c, s) > 0.0
    ensures Times(Times(c, Times(Times(s, 1.0 - d / Times(c, s)), w)), c2) == Times(Times(c, s) - d, Times(c2, w))
  {
    var x := c * s;
    assert (d / x) * x == d;
    assert x * (1.0 - d / x) == x - d;
    assert (c * ((s * (1.0 - d / x)) * w)) * c2 == (x * (1.0 - d / x)) * (c2 * w);
  }

  lemma LoneDividend(close: Positive, split: real, d: Action)
    requires d.Dividend? && split > 0.0
    ensures DividendsPart([d], close, split) == DividendPart(d.amount, close, split)
  {
    assert [d][..0] == [];
    TimesCommutes(1.0, DividendPart(d.amount, close, split));
    TimesUnits(DividendPart(d.amount, close, split));
  }

  /** Between two neighbouring bars with one ex-date between them carrying one dividend D and
      splits of combined ratio old/new, the adjusted series returns
      close2 / (close1 * old / new - D). */
  lemma ReturnAcrossExDate(bars: seq<Bar>, actions: seq<Action>, k: nat, ex: Date, d: Action)
    requires DateOrdered(bars) && k + 1 < |bars| && bars[k].date < ex <= bars[k + 1].date
    requires ex - bars[k].date <= MAX_PREV_CLOSE_GAP_DAYS
    requires d.Dividend? && DividendsAt(actions, ex) == [d]
    requires forall a :: a in actions && Adjusts(a) && bars[k].date < a.exDate <= bars[k + 1].date ==> a.exDate == ex
    ensures var adjusted1 := Adjusted(bars[k].close, FactorAt(bars, actions, bars[k].date));
            var adjusted2 := Adjusted(bars[k + 1].close, FactorAt(bars, actions, bars[k + 1].date));
            Times(adjusted1, bars[k + 1].close) == Times(Times(bars[k].close, SplitAt(actions, ex)) - d.amount, adjusted2)
  {
    var d1, d2 := bars[k].date, bars[k + 1].date;
    var c1, c2 := bars[k].close, bars[k + 1].close;
    var split := SplitAt(actions, ex);
    forall t | 0 <= t <= k
      ensures Dates(bars)[t] < ex
    {
      assert t == k || DateLeq(bars[t], bars[k]);
    }
    CountBeforeIs(Dates(bars), ex, k + 1);
    assert Anchor(bars, ex) == Some(c1);
    assert k + 1 == |bars| - 1 || DateLeq(bars[k + 1], bars[|bars| - 1]);
    OneExDate(bars, actions, d1, ex, d2);
    hide Between;
    hide Anchor;
    GroupIsBetween(bars, actions, actions, ex);
    LoneDividend(c1, split, d);
    FactorStep(bars, actions, d1, d2);
    var b, f2 := Between(bars, actions, actions, d1, d2), FactorAt(bars, actions, d2);
    assert b == Factor(split, DividendPart(d.amount, c1, split));
    hide FactorAt;
    hide Times;
    TimesPositive(c1, split);
    WholeOfCompose(b, f2);
    AdjustedIsWhole(c1, Compose(b, f2));
    AdjustedIsWhole(c2, f2);
    DividendLeg(c1, split, d.amount, Whole(f2), c2);
  }

  lemma OneExDate(bars: seq<Bar>, actions: seq<Action>, lo: Date, ex: Date, hi: Date)
    requires lo < ex <= hi
    requires forall a :: a in actions && Adjusts(a) && lo < a.exDate <= hi ==> a.exDate == ex
    ensures Between(bars, actions, actions, lo, hi) == Between(bars, actions, actions, ex - 1, ex)
  {
    hide Compose;
    BetweenSplits(bars, actions, actions, lo, ex - 1, hi);
    BetweenSplits(bars, actions, actions, ex - 1, ex, hi);
    BetweenEmpty(bars, actions, actions, lo, ex - 1);
    BetweenEmpty(bars, actions, actions, ex, hi);
    var f := Between(bars, actions, actions, ex - 1, ex);
    ComposeLaws(f, ONE, ONE);
  }

  datatype ReturnsError = DivisionByZero

  /** Bar-over-bar returns; a zero adjusted close before another bar cannot be divided by. */
  method TotalReturns(adjusted: seq<real>) returns (r: Result<seq<real>, ReturnsError>)
    ensures r.Success? <==> forall k :: 0 <= k < |adjusted| - 1 ==> adjusted[k] != 0.0
    ensures r.Success? ==> |r.value| == Max(0, |adjusted| - 1)
    ensures r.Success? ==> forall k :: 0 <= k < |r.value| ==> r.value[k] == adjusted[k + 1] / adjusted[k] - 1.0
  {
    var rates: seq<real> := [];
    var previous: Option<real> := None;
    for i := 0 to |adjusted|
      invariant |rates| == Max(0, i - 1)
      invariant previous == if i == 0 then None else Some(adjusted[i - 1])
      invariant forall k :: 0 <= k < i - 1 ==> adjusted[k] != 0.0
      invariant forall k :: 0 <= k < |rates| ==> rates[k] == adjusted[k + 1] / adjusted[k] - 1.0
    {
      if previous.Some? {
        if previous.value == 0.0 {
          assert adjusted[i - 1] == 0.0;
          return Failure(DivisionByZero);
        }
        rates := rates + [adjusted[i] / previous.value - 1.0];
      }
      previous := Some(adjusted[i]);
    }
    r := Success(rates);
  }

  /** Compounding a run of returns. */
  function Compound(rates: seq<real>): real {
    if rates == [] then 1.0 else Times(Compound(rates[..|rates| - 1]), 1.0 + rates[|rates| - 1])
  }

  lemma ChainQuotient(x: real, y: real, z: real)
    requires x != 0.0 && y != 0.0
    ensures Times(y / x, 1.0 + (z / y - 1.0)) == z / x
  {
    var w := z / y;
    assert w * y == z;
    var u := y / x;
    assert u * x == y;
    assert (u * w) * x == z;
  }

  lemma QuotientOfSelf(x: real)
    requires x != 0.0
    ensures x / x == 1.0
  {
  }

  /** Bar-over-bar returns telescope: compounding them over any run of bars gives the ratio of its
      last adjusted close to its first. */
  lemma {:induction false} ReturnsTelescope(adjusted: seq<real>, rates: seq<real>, lo: nat, hi: nat)
    requires lo <= hi < |adjusted| && |rates| == |adjusted| - 1
    requires forall k :: 0 <= k < |adjusted| - 1 ==> adjusted[k] != 0.0
    requires forall k :: 0 <= k < |rates| ==> rates[k] == adjusted[k + 1] / adjusted[k] - 1.0
    requires adjusted[lo] != 0.0
    ensures Compound(rates[lo..hi]) == adjusted[hi] / adjusted[lo]
    decreases hi - lo
  {
    hide Times;
    if lo == hi {
      assert rates[lo..hi] == [];
      QuotientOfSelf(adjusted[lo]);
    } else {
      ReturnsTelescope(adjusted, rates, lo, hi - 1);
      assert rates[lo..hi][..hi - lo - 1] == rates[lo..hi - 1];
      ChainQuotient(adjusted[lo], adjusted[hi - 1], adjusted[hi]);
    }
  }
}
