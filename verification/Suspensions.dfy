/** Which securities a context must drop and which it must keep, in terms of bars and ex-dates alone. */
module Suspensions {
  import opened Domain
  import opened Markets
  import opened Context
  import Adjustments
  import Slicing
  import Sorting
  import Unpublished

  /** The ex-date lies after some bar and not after every bar. */
  ghost predicate Bracketed(bars: seq<Bar>, ex: Date) {
    (exists b :: b in bars && b.date < ex) && (exists b :: b in bars && ex <= b.date)
  }

  /** Some bar before the ex-date is near enough to anchor it. */
  ghost predicate NearBarBefore(bars: seq<Bar>, ex: Date) {
    exists b :: b in bars && b.date < ex <= b.date + MAX_PREV_CLOSE_GAP_DAYS
  }

  lemma NearBarIsAnchor(bars: seq<Bar>, ex: Date)
    requires DateOrdered(bars)
    ensures NearBarBefore(bars, ex) <==> Adjustments.Anchor(bars, ex).Some?
  {
    Adjustments.CountFindsLastBefore(bars, ex);
    var k := CountBefore(Dates(bars), ex);
    if k > 0 && ex - bars[k - 1].date <= MAX_PREV_CLOSE_GAP_DAYS {
      assert bars[k - 1] in bars;
    }
    if b :| b in bars && b.date < ex <= b.date + MAX_PREV_CLOSE_GAP_DAYS {
      var i :| 0 <= i < |bars| && bars[i] == b;
      assert k > 0 && i <= k - 1;
      assert i < k - 1 ==> DateLeq(bars[i], bars[k - 1]);
    }
  }

  lemma SpanIsBracket(bars: seq<Bar>, ex: Date)
    requires DateOrdered(bars)
    ensures Bracketed(bars, ex) <==> bars != [] && bars[0].date < ex <= bars[|bars| - 1].date
  {
    if bars != [] {
      var n := |bars| - 1;
      assert bars[0] in bars && bars[n] in bars;
      forall b | b in bars
        ensures bars[0].date <= b.date <= bars[n].date
      {
        var i :| 0 <= i < |bars| && bars[i] == b;
        assert i > 0 ==> DateLeq(bars[0], bars[i]);
        assert i < n ==> DateLeq(bars[i], bars[n]);
      }
    }
  }

  /** On bars in date order an ex-date is unanchorable exactly when it lies among them and its anchor
      close does not exist, no bar within the tolerated gap coming before it; and anchored exactly when
      it lies among them and the anchor exists. */
  lemma UnanchorableExactlyWhen(bars: seq<Bar>, ex: Date)
    requires DateOrdered(bars)
    ensures Place(Dates(bars), ex).Unanchorable? <==> Bracketed(bars, ex) && Adjustments.Anchor(bars, ex).None?
    ensures Place(Dates(bars), ex).Anchored? <==> Bracketed(bars, ex) && Adjustments.Anchor(bars, ex).Some?
    ensures Adjustments.Anchor(bars, ex).Some? <==> NearBarBefore(bars, ex)
  {
    NearBarIsAnchor(bars, ex);
    SpanIsBracket(bars, ex);
    Adjustments.CountFindsLastBefore(bars, ex);
  }

  /** The action falls among its security's bars with none near enough before it. */
  ghost predicate GapBefore(bars: seq<Bar>, ex: Date) {
    Bracketed(bars, ex) && !NearBarBefore(bars, ex)
  }

  /** Of bars in date order per security, a security is dropped exactly when some candidate of it falls
      among its bars with none near enough before it; otherwise it keeps all its bars, and of its
      candidates exactly those that fall among them. */
  lemma DroppedExactlyWhen(bars: seq<Bar>, candidates: seq<Action>, sid: SecurityId)
    requires DateOrdered(BarsOf(bars, sid))
    ensures var own, r := BarsOf(bars, sid), Computable(bars, candidates);
            if exists a :: a in candidates && a.sid == sid && GapBefore(own, a.exDate)
            then BarsOf(r.bars, sid) == [] && ActionsOf(r.actions, sid) == []
            else BarsOf(r.bars, sid) == own
                 && forall a :: a in ActionsOf(r.actions, sid) <==> a in candidates && a.sid == sid && Bracketed(own, a.exDate)
  {
    var own := BarsOf(bars, sid);
    KeptWholeOrDropped(bars, candidates, sid);
    forall a: Action | a.sid == sid
      ensures PlaceIn(bars, a).Unanchorable? <==> GapBefore(own, a.exDate)
      ensures PlaceIn(bars, a).Anchored? <==> Bracketed(own, a.exDate) && NearBarBefore(own, a.exDate)
    {
      UnanchorableExactlyWhen(own, a.exDate);
    }
    hide PlaceIn;
    hide Bracketed;
    hide NearBarBefore;
    Slicing.InActionsOf(candidates, sid);
    forall a
      ensures a in AnchoredOnly(bars, ActionsOf(candidates, sid)) <==> a in candidates && a.sid == sid && PlaceIn(bars, a).Anchored?
    {
      InAnchoredOnly(bars, ActionsOf(candidates, sid), a);
    }
    if a :| a in candidates && a.sid == sid && GapBefore(own, a.exDate) {
      assert PlaceIn(bars, a).Unanchorable?;
      assert sid in Suspended(bars, candidates);
    } else {
      assert sid !in Suspended(bars, candidates);
    }
  }

  lemma {:induction false} InAnchoredOnly(bars: seq<Bar>, candidates: seq<Action>, a: Action)
    ensures a in AnchoredOnly(bars, candidates) <==> a in candidates && PlaceIn(bars, a).Anchored?
  {
    if candidates != [] {
      InAnchoredOnly(bars, candidates[1..], a);
      assert candidates == [candidates[0]] + candidates[1..];
    }
  }

  // ----- the same of a context, on the whole dataset

  /** A bar of the security the context slices. */
  predicate Sliced(m: Market, clock: Date, sid: SecurityId, b: Bar) {
    b in m.bars && b.sid == sid && clock - FACTOR_LOOKBACK_DAYS <= b.date <= clock
  }

  /** An action of the security that goes ex between two sliced bars, with none near enough before it. */
  ghost predicate SuspendedBy(m: Market, clock: Date, sid: SecurityId, a: Action) {
    && a in m.actions && a.sid == sid
    && (exists b :: Sliced(m, clock, sid, b) && b.date < a.exDate)
    && (exists b :: Sliced(m, clock, sid, b) && a.exDate <= b.date)
    && !exists b :: Sliced(m, clock, sid, b) && b.date < a.exDate <= b.date + MAX_PREV_CLOSE_GAP_DAYS
  }

  lemma SlicedIsWindow(m: Market, clock: Date, sid: SecurityId)
    ensures var window := Slicing.WindowOf(m.bars, sid, clock - FACTOR_LOOKBACK_DAYS, clock);
            DateOrdered(window) && forall b :: b in window <==> Sliced(m, clock, sid, b)
  {
    var start := clock - FACTOR_LOOKBACK_DAYS;
    var panel := Panel(m.bars, sid);
    Slicing.PanelMembers(m.bars, sid);
    Sorting.SameElements(panel, BarsOf(m.bars, sid));
    InBarsOf(m.bars, sid);
    SliceIsWithin(panel, start, clock);
    forall b
      ensures b in Within(panel, start, clock) <==> b in panel && start <= b.date <= clock
    {
      InWithin(panel, start, clock, b);
    }
  }

  lemma {:induction false} InWithin(bars: seq<Bar>, start: Date, end: Date, b: Bar)
    ensures b in Within(bars, start, end) <==> b in bars && start <= b.date <= end
  {
    if bars != [] {
      InWithin(bars[1..], start, end, b);
      assert bars == [bars[0]] + bars[1..];
    }
  }

  /** A context asked about a security hands over none of its bars exactly when it has none in the
      lookback window or some action of it goes ex among them with no bar near enough before; and
      otherwise hands over every one of them. */
  lemma ContextDropsExactlyWhen(m: Market, clock: Date, sids: set<SecurityId>, sid: SecurityId)
    requires sid in sids
    ensures var kept := BarsOf(SlicedInputs(m, clock, sids).bars, sid);
            if exists a :: SuspendedBy(m, clock, sid, a) then kept == []
            else DateOrdered(kept) && forall b :: b in kept <==> Sliced(m, clock, sid, b)
  {
    var ids, start := Sorting.Ascending(sids), clock - FACTOR_LOOKBACK_DAYS;
    var bars, candidates := BarsFor(m.bars, ids, start, clock), ActionsFor(m.actions, ids);
    Sorting.AscendingProperties(sids);
    Slicing.GatheredBars(m.bars, ids, sid, start, clock);
    SlicedIsWindow(m, clock, sid);
    DroppedExactlyWhen(bars, candidates, sid);
    SuspendedByCandidates(m, clock, ids, sid, BarsOf(bars, sid));
    assert SlicedInputs(m, clock, sids) == Computable(bars, candidates);
    hide *;
  }

  lemma SuspendedByCandidates(m: Market, clock: Date, ids: seq<SecurityId>, sid: SecurityId, own: seq<Bar>)
    requires sid in ids && forall b :: b in own <==> Sliced(m, clock, sid, b)
    ensures (exists a :: a in ActionsFor(m.actions, ids) && a.sid == sid && GapBefore(own, a.exDate))
            <==> exists a :: SuspendedBy(m, clock, sid, a)
  {
    hide Sliced;
    hide ActionsFor;
    forall a: Action | a.sid == sid
      ensures a in ActionsFor(m.actions, ids) && GapBefore(own, a.exDate) <==> SuspendedBy(m, clock, sid, a)
    {
      Unpublished.InActionsFor(m.actions, ids, a);
    }
    if a :| SuspendedBy(m, clock, sid, a) {
      assert a.sid == sid && a in ActionsFor(m.actions, ids) && GapBefore(own, a.exDate);
    }
  }
}
