/** The clock-bound view a strategy gets, and the slicing that feeds factor computation. */
module Context {
  import opened Domain
  import opened Markets
  import Sorting

  /** Longest bar gap an action may reach back across to its anchor close. */
  const MAX_PREV_CLOSE_GAP_DAYS := 7
  const MARK_STALENESS_DAYS := 15
  const FACTOR_LOOKBACK_DAYS := 450

  datatype Placement = Outside | Anchored | Unanchorable

  /** Where an ex-date falls in a security's sliced dates: outside their span (it cancels in any
      in-window ratio), inside with a close near enough to anchor it, or inside without one. */
  function Place(dates: seq<Date>, ex: Date): Placement {
    if dates == [] || ex <= dates[0] || ex > dates[|dates| - 1] then Outside
    else
      var previous := dates[CountBefore(dates, ex) - 1];
      if ex - previous > MAX_PREV_CLOSE_GAP_DAYS then Unanchorable else Anchored
  }

  function PlaceIn(bars: seq<Bar>, a: Action): Placement {
    Place(Dates(BarsOf(bars, a.sid)), a.exDate)
  }

  /** Securities with some in-window action that cannot anchor, whatever its publication time. */
  function Suspended(bars: seq<Bar>, candidates: seq<Action>): set<SecurityId> {
    set a | a in candidates && PlaceIn(bars, a).Unanchorable? :: a.sid
  }

  function AnchoredOnly(bars: seq<Bar>, candidates: seq<Action>): seq<Action> {
    if candidates == [] then []
    else if PlaceIn(bars, candidates[0]).Anchored? then [candidates[0]] + AnchoredOnly(bars, candidates[1..])
    else AnchoredOnly(bars, candidates[1..])
  }

  function BarsExcept(bars: seq<Bar>, dropped: set<SecurityId>): seq<Bar> {
    if bars == [] then []
    else if bars[0].sid !in dropped then [bars[0]] + BarsExcept(bars[1..], dropped)
    else BarsExcept(bars[1..], dropped)
  }

  function ActionsExcept(actions: seq<Action>, dropped: set<SecurityId>): seq<Action> {
    if actions == [] then []
    else if actions[0].sid !in dropped then [actions[0]] + ActionsExcept(actions[1..], dropped)
    else ActionsExcept(actions[1..], dropped)
  }

  datatype Inputs = Inputs(bars: seq<Bar>, actions: seq<Action>)

  function Computable(bars: seq<Bar>, candidates: seq<Action>): Inputs {
    var dropped := Suspended(bars, candidates);
    Inputs(BarsExcept(bars, dropped), ActionsExcept(AnchoredOnly(bars, candidates), dropped))
  }

  lemma {:induction false} AnchoredOnlyAppend(bars: seq<Bar>, actions: seq<Action>, a: Action)
    ensures AnchoredOnly(bars, actions + [a])
         == AnchoredOnly(bars, actions) + (if PlaceIn(bars, a).Anchored? then [a] else [])
  {
    if actions == [] {
      assert actions + [a] == [a];
    } else {
      assert (actions + [a])[1..] == actions[1..] + [a];
      AnchoredOnlyAppend(bars, actions[1..], a);
    }
  }

  /** The loop that groups the sliced dates by security. */
  method GroupDates(bars: seq<Bar>) returns (bySid: map<SecurityId, seq<Date>>)
    ensures forall sid :: sid in bySid <==> BarsOf(bars, sid) != []
    ensures forall sid :: sid in bySid ==> bySid[sid] == Dates(BarsOf(bars, sid))
  {
    bySid := map[];
    for i := 0 to |bars|
      invariant forall sid :: sid in bySid <==> BarsOf(bars[..i], sid) != []
      invariant forall sid :: sid in bySid ==> bySid[sid] == Dates(BarsOf(bars[..i], sid))
    {
      assert bars[..i + 1] == bars[..i] + [bars[i]];
      var own := if bars[i].sid in bySid then bySid[bars[i].sid] else [];
      ghost var before := bySid;
      bySid := bySid[bars[i].sid := own + [bars[i].date]];
      forall sid
        ensures sid in bySid <==> BarsOf(bars[..i + 1], sid) != []
        ensures sid in bySid ==> bySid[sid] == Dates(BarsOf(bars[..i + 1], sid))
      {
        BarsOfAppend(bars[..i], bars[i], sid);
        assert sid in before <==> BarsOf(bars[..i], sid) != [];
      }
    }
    assert bars[..|bars|] == bars;
  }

  lemma SuspendedAppend(bars: seq<Bar>, candidates: seq<Action>, a: Action)
    ensures Suspended(bars, candidates + [a]) == Suspended(bars, candidates) + (if PlaceIn(bars, a).Unanchorable? then {a.sid} else {})
  {
  }

  /** The loop over candidate actions, and the final drop of suspended securities. */
  method ComputableInputs(bars: seq<Bar>, candidates: seq<Action>) returns (r: Inputs)
    ensures r == Computable(bars, candidates)
  {
    var bySid := GroupDates(bars);
    var unanchorable: set<SecurityId> := {};
    var actions: seq<Action> := [];
    for i := 0 to |candidates|
      invariant unanchorable == Suspended(bars, candidates[..i])
      invariant actions == AnchoredOnly(bars, candidates[..i])
    {
      var action := candidates[i];
      assert candidates[..i + 1] == candidates[..i] + [action];
      AnchoredOnlyAppend(bars, candidates[..i], action);
      SuspendedAppend(bars, candidates[..i], action);
      hide Suspended;
      hide AnchoredOnly;
      hide BarsOf;
      if action.sid !in bySid {
        continue;
      }
      var dates := bySid[action.sid];
      if action.exDate <= dates[0] || action.exDate > dates[|dates| - 1] {
        continue;
      }
      var previous := dates[CountBefore(dates, action.exDate) - 1];
      if action.exDate - previous > MAX_PREV_CLOSE_GAP_DAYS {
        unanchorable := unanchorable + {action.sid};
        continue;
      }
      actions := actions + [action];
    }
    assert candidates[..|candidates|] == candidates;
    r := Inputs(BarsExcept(bars, unanchorable), ActionsExcept(actions, unanchorable));
  }

  // ----- what each security keeps

  lemma {:induction false} BarsExceptOf(bars: seq<Bar>, dropped: set<SecurityId>, sid: SecurityId)
    ensures BarsOf(BarsExcept(bars, dropped), sid) == if sid in dropped then [] else BarsOf(bars, sid)
  {
    if bars != [] {
      BarsExceptOf(bars[1..], dropped, sid);
    }
  }

  lemma {:induction false} ActionsExceptOf(actions: seq<Action>, dropped: set<SecurityId>, sid: SecurityId)
    ensures ActionsOf(ActionsExcept(actions, dropped), sid) == if sid in dropped then [] else ActionsOf(actions, sid)
  {
    if actions != [] {
      ActionsExceptOf(actions[1..], dropped, sid);
    }
  }

  lemma {:induction false} AnchoredOnlyOf(bars: seq<Bar>, candidates: seq<Action>, sid: SecurityId)
    ensures ActionsOf(AnchoredOnly(bars, candidates), sid) == AnchoredOnly(bars, ActionsOf(candidates, sid))
  {
    if candidates != [] {
      AnchoredOnlyOf(bars, candidates[1..], sid);
    }
  }

  /** A security is kept whole, with exactly its anchored actions, or dropped whole. */
  lemma KeptWholeOrDropped(bars: seq<Bar>, candidates: seq<Action>, sid: SecurityId)
    ensures var r := Computable(bars, candidates);
            if sid in Suspended(bars, candidates)
            then BarsOf(r.bars, sid) == [] && ActionsOf(r.actions, sid) == []
            else BarsOf(r.bars, sid) == BarsOf(bars, sid)
                 && ActionsOf(r.actions, sid) == AnchoredOnly(bars, ActionsOf(candidates, sid))
  {
    var dropped := Suspended(bars, candidates);
    BarsExceptOf(bars, dropped, sid);
    ActionsExceptOf(AnchoredOnly(bars, candidates), dropped, sid);
    AnchoredOnlyOf(bars, candidates, sid);
  }

  // ----- the context's accessors

  /** Last raw close on or before the clock, None when absent or stale. */
  function Price(m: Market, clock: Date, sid: SecurityId): Option<Positive> {
    var found := LastPrint(m, sid, clock);
    if found.None? || clock - found.value.date > MARK_STALENESS_DAYS then None else Some(found.value.close)
  }

  /** Bars over the lookback window and the actions computable against them. */
  function SlicedInputs(m: Market, clock: Date, sids: set<SecurityId>): Inputs {
    var ids := Sorting.Ascending(sids);
    Computable(BarsFor(m.bars, ids, clock - FACTOR_LOOKBACK_DAYS, clock), ActionsFor(m.actions, ids))
  }

  /** Everything a context bound to `clock` can be asked answers alike on the two datasets. */
  ghost predicate SameView(m1: Market, m2: Market, clock: Date) {
    && (forall sid :: Price(m1, clock, sid) == Price(m2, clock, sid))
    && (forall sids :: SlicedInputs(m1, clock, sids) == SlicedInputs(m2, clock, sids))
  }

  // ----- data after the clock is invisible

  lemma {:induction false} WithinDates(bars: seq<Bar>, start: Date, end: Date)
    ensures forall b :: b in Within(bars, start, end) ==> b.date <= end
  {
    if bars != [] {
      WithinDates(bars[1..], start, end);
    }
  }

  lemma {:induction false} BarsForDates(bars: seq<Bar>, sids: seq<SecurityId>, start: Date, end: Date)
    ensures forall b :: b in BarsFor(bars, sids, start, end) ==> b.date <= end
  {
    if sids != [] {
      BarsForDates(bars, sids[1..], start, end);
      OrdersAreDateFirst();
      SeriesDateOrdered(BarsOf(bars, sids[0]), DateLeq);
      SliceIsWithin(Panel(bars, sids[0]), start, end);
      WithinDates(Panel(bars, sids[0]), start, end);
    }
  }

  lemma {:induction false} ActionsForExUpTo(actions: seq<Action>, sids: seq<SecurityId>, day: Date)
    ensures ExUpTo(ActionsFor(actions, sids), day) == ActionsFor(ExUpTo(actions, day), sids)
  {
    if sids != [] {
      ActionsForExUpTo(actions, sids[1..], day);
      ActionsOfExUpTo(actions, sids[0], day);
      ExUpToConcat(ActionsOf(actions, sids[0]), ActionsFor(actions, sids[1..]), day);
    }
  }

  lemma {:induction false} ActionsOfExUpTo(actions: seq<Action>, sid: SecurityId, day: Date)
    ensures ExUpTo(ActionsOf(actions, sid), day) == ActionsOf(ExUpTo(actions, day), sid)
  {
    if actions != [] {
      ActionsOfExUpTo(actions[1..], sid, day);
    }
  }

  lemma {:induction false} ExUpToConcat(a: seq<Action>, b: seq<Action>, day: Date)
    ensures ExUpTo(a + b, day) == ExUpTo(a, day) + ExUpTo(b, day)
  {
    if a == [] {
      assert a + b == b;
    } else {
      assert (a + b)[1..] == a[1..] + b;
      ExUpToConcat(a[1..], b, day);
    }
  }

  lemma LaterIsOutside(bars: seq<Bar>, a: Action, day: Date)
    requires (forall b :: b in bars ==> b.date <= day) && a.exDate > day
    ensures PlaceIn(bars, a).Outside?
  {
    var own := BarsOf(bars, a.sid);
    if own != [] {
      InBarsOf(bars, a.sid);
      assert own[|own| - 1] in own;
    }
  }

  lemma {:induction false} AnchoredOnlyExUpTo(bars: seq<Bar>, candidates: seq<Action>, day: Date)
    requires forall b :: b in bars ==> b.date <= day
    ensures AnchoredOnly(bars, ExUpTo(candidates, day)) == AnchoredOnly(bars, candidates)
  {
    if candidates != [] {
      AnchoredOnlyExUpTo(bars, candidates[1..], day);
      if candidates[0].exDate > day {
        LaterIsOutside(bars, candidates[0], day);
      }
    }
  }

  lemma {:induction false} InExUpTo(actions: seq<Action>, day: Date)
    ensures forall a :: a in ExUpTo(actions, day) <==> a in actions && a.exDate <= day
  {
    if actions != [] {
      InExUpTo(actions[1..], day);
      assert actions == [actions[0]] + actions[1..];
    }
  }

  /** Actions ex after every sliced bar change nothing. */
  lemma ComputableExUpTo(bars: seq<Bar>, candidates: seq<Action>, day: Date)
    requires forall b :: b in bars ==> b.date <= day
    ensures Computable(bars, ExUpTo(candidates, day)) == Computable(bars, candidates)
  {
    AnchoredOnlyExUpTo(bars, candidates, day);
    InExUpTo(candidates, day);
    forall a | a in candidates && PlaceIn(bars, a).Unanchorable?
      ensures a in ExUpTo(candidates, day)
    {
      if a.exDate > day {
        LaterIsOutside(bars, a, day);
      }
    }
    assert Suspended(bars, ExUpTo(candidates, day)) == Suspended(bars, candidates);
  }

  /** A context bound to a day on or before the agreement day cannot tell the datasets apart. */
  lemma AgreeingDataSameView(m1: Market, m2: Market, day: Date, clock: Date)
    requires Agree(m1, m2, day) && clock <= day
    ensures SameView(m1, m2, clock)
  {
    forall sid
      ensures Price(m1, clock, sid) == Price(m2, clock, sid)
    {
      LookupsAgree(m1, m2, day, sid, clock);
    }
    forall sids
      ensures SlicedInputs(m1, clock, sids) == SlicedInputs(m2, clock, sids)
    {
      var ids := Sorting.Ascending(sids);
      var start := clock - FACTOR_LOOKBACK_DAYS;
      var bars := BarsFor(m1.bars, ids, start, clock);
      BarsForAgree(m1, m2, day, ids, start, clock);
      BarsForDates(m1.bars, ids, start, clock);
      ComputableExUpTo(bars, ActionsFor(m1.actions, ids), day);
      ComputableExUpTo(bars, ActionsFor(m2.actions, ids), day);
      ActionsForExUpTo(m1.actions, ids, day);
      ActionsForExUpTo(m2.actions, ids, day);
    }
  }

  // ----- an action published after the clock

  function Known(actions: seq<Action>, asOf: Instant): seq<Action> {
    if actions == [] then []
    else if actions[0].availableAt <= asOf then [actions[0]] + Known(actions[1..], asOf)
    else Known(actions[1..], asOf)
  }

  /** What factor computation works from: the sliced inputs after its own knowledge filter. */
  function KnownInputs(bars: seq<Bar>, candidates: seq<Action>, asOf: Instant): Inputs {
    var r := Computable(bars, candidates);
    Inputs(r.bars, Known(r.actions, asOf))
  }

  lemma {:induction false} KnownWithout(bars: seq<Bar>, pre: seq<Action>, late: Action, post: seq<Action>,
                                        dropped: set<SecurityId>, asOf: Instant)
    requires late.availableAt > asOf
    ensures Known(ActionsExcept(AnchoredOnly(bars, pre + [late] + post), dropped), asOf)
         == Known(ActionsExcept(AnchoredOnly(bars, pre + post), dropped), asOf)
  {
    if pre == [] {
      assert pre + [late] + post == [late] + post;
      assert pre + post == post;
    } else {
      assert (pre + [late] + post)[1..] == pre[1..] + [late] + post;
      assert (pre + post)[1..] == pre[1..] + post;
      KnownWithout(bars, pre[1..], late, post, dropped, asOf);
    }
  }

  lemma {:induction false} BarsExceptSame(bars: seq<Bar>, d1: set<SecurityId>, d2: set<SecurityId>, sid: SecurityId)
    requires BarsExcept(bars, d1) == BarsExcept(bars, d2) && BarsOf(bars, sid) != []
    ensures sid in d1 <==> sid in d2
  {
    BarsExceptOf(bars, d1, sid);
    BarsExceptOf(bars, d2, sid);
  }

  /** An action nobody knows yet leaves the computation's inputs unchanged exactly when it is not
      the one thing that marks its security unanchorable: the slicer tests bar gaps before anyone
      tests publication times. */
  lemma UnpublishedInvisibleExactlyWhen(bars: seq<Bar>, pre: seq<Action>, late: Action, post: seq<Action>, asOf: Instant)
    requires late.availableAt > asOf
    ensures KnownInputs(bars, pre + [late] + post, asOf) == KnownInputs(bars, pre + post, asOf)
       <==> !PlaceIn(bars, late).Unanchorable? || late.sid in Suspended(bars, pre + post)
  {
    var d1, d2 := Suspended(bars, pre + [late] + post), Suspended(bars, pre + post);
    assert d1 == d2 + (if PlaceIn(bars, late).Unanchorable? then {late.sid} else {});
    KnownWithout(bars, pre, late, post, d2, asOf);
    if PlaceIn(bars, late).Unanchorable? && late.sid !in d2 {
      if BarsExcept(bars, d1) == BarsExcept(bars, d2) {
        BarsExceptSame(bars, d1, d2, late.sid);
      }
    } else {
      assert d1 == d2;
    }
  }

  /** Two bars ten days apart and a split nobody knows yet: the security vanishes from the inputs. */
  lemma UnpublishedActionCanSuspend()
    ensures exists bars, late: Action, asOf ::
              late.availableAt > asOf && KnownInputs(bars, [] + [late] + [], asOf) != KnownInputs(bars, [] + [], asOf)
  {
    var bars := [Bar(1, 0, 5.0, 10), Bar(1, 10, 5.0, 10)];
    var late := Split(1, 10, EndOfDay(30), 2, 1);
    assert bars[1..][1..] == [];
    assert BarsOf(bars[1..], 1) == [bars[1]];
    assert BarsOf(bars, 1) == [bars[0]] + [bars[1]];
    assert Dates(bars)[1..] == [10];
    assert CountBefore(Dates(bars), 10) == 1;
    assert PlaceIn(bars, late).Unanchorable?;
    UnpublishedInvisibleExactlyWhen(bars, [], late, [], EndOfDay(20));
  }
}
