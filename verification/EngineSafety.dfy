/** Every run is safe: no step raises, and every close leaves a sound, marked, fresh book. */
module EngineSafety {
  import opened Arithmetic
  import opened Domain
  import opened Markets
  import opened Ledger
  import opened Trading
  import opened Engine
  import Sorting

  ghost predicate NonNegativeStrategy(strategy: Strategy) {
    forall m, clock, positions, value :: NonNegativeTargets(strategy(m, clock, positions, value))
  }

  ghost predicate Increasing(sessions: seq<Date>) {
    forall i, j :: 0 <= i < j < |sessions| ==> sessions[i] < sessions[j]
  }

  /** Every holding has printed within the stale-exit window. */
  ghost predicate NoneStale(m: Market, positions: Positions, day: Date) {
    forall sid :: sid in positions ==> !Stale(m, sid, day)
  }

  /** A step that never fails, keeps the book sound, appends to the log and opens no new holding. */
  ghost predicate Trims(b: Book, spec: Result<Book, LedgerError>) {
    && spec.Success?
    && Sound(spec.value)
    && b.events <= spec.value.events
    && spec.value.positions.Keys <= b.positions.Keys
  }

  lemma RecordTrims(b: Book, e: LedgerEvent)
    requires Sound(b) && Attributed(e) && !Shorts(b, e) && e.cashDelta >= 0.0
    requires e.quantityDelta != 0 ==> e.sid.value in b.positions
    ensures Trims(b, Record(b, e))
  {
    SoundIsSolvent(b);
    RecordKeepsSound(b, e);
  }

  lemma ResolveTrims(b: Book, sid: SecurityId, proceeds: Option<real>, day: Date)
    requires Sound(b) && (proceeds.Some? ==> proceeds.value >= 0.0)
    ensures Trims(b, ResolveDelisting(b, sid, proceeds, day))
    ensures sid !in ResolveDelisting(b, sid, proceeds, day).value.positions
  {
    SoundIsSolvent(b);
    var held := Quantity(b.positions, sid);
    if held > 0 {
      if proceeds.Some? {
        TimesNonNegative(proceeds.value, held as real);
        RecordTrims(b, LedgerEvent(day, DelistingProceeds, Some(sid), -held, Times(proceeds.value, held as real), proceeds, 0.0));
      } else {
        RecordTrims(b, LedgerEvent(day, DelistingWriteoff, Some(sid), -held, 0.0, None, 0.0));
      }
    }
  }

  lemma SplitTrims(b: Book, sid: SecurityId, newShares: PositiveInt, oldShares: PositiveInt, mark: real, day: Date)
    requires Sound(b) && mark >= 0.0
    ensures Trims(b, ApplySplit(b, sid, newShares, oldShares, mark, day))
  {
    var held := Quantity(b.positions, sid);
    if held > 0 {
      var whole := WholeAfterSplit(held, newShares, oldShares);
      var remainder := FractionAfterSplit(held, newShares, oldShares);
      SplitParts(held * newShares, oldShares);
      var e := LedgerEvent(day, SplitApplied, Some(sid), whole - held, 0.0, None, 0.0);
      RecordTrims(b, e);
      if remainder != 0.0 {
        TimesNonNegative(mark, remainder);
        RecordTrims(Record(b, e).value, LedgerEvent(day, CashInLieu, Some(sid), 0, Times(mark, remainder), Some(mark), 0.0));
      }
    }
  }

  lemma ActionTrims(m: Market, b: Book, a: Action, day: Date)
    requires Sound(b)
    ensures Trims(b, ApplyAction(m, b, a, day))
  {
    match a
    case Split(sid, _, _, newShares, oldShares) =>
      if LastClose(m, sid, day).Some? {
        SplitTrims(b, sid, newShares, oldShares, LastClose(m, sid, day).value, day);
      }
    case Dividend(sid, _, _, amount, currency) =>
      var perShare := ToQuoteUnit(amount, currency);
      TimesNonNegative(amount, 100.0);
      var held := Quantity(b.positions, sid);
      if perShare.Some? && held > 0 {
        TimesNonNegative(perShare.value, held as real);
        RecordTrims(b, LedgerEvent(day, DividendCredit, Some(sid), 0, Times(perShare.value, held as real), perShare, 0.0));
      }
    case Merger(sid, _, _, cash, currency) =>
      if cash.Some? {
        TimesNonNegative(cash.value, 100.0);
        ResolveTrims(b, sid, ToQuoteUnit(cash.value, currency), day);
      }
    case DelistingAction(sid, _, _, reason) =>
      ResolveTrims(b, sid, DelistingCash(m, sid, reason, day), day);
    case RightsIssue(_, _, _) =>
    case TickerChangeAction(_, _, _) =>
  }

  lemma {:induction false} ActionsTrim(m: Market, b: Book, actions: seq<Action>, day: Date)
    requires Sound(b)
    ensures Trims(b, ApplyActions(m, b, actions, day))
    decreases |actions|
  {
    if actions != [] {
      ActionTrims(m, b, actions[0], day);
      ActionsTrim(m, ApplyAction(m, b, actions[0], day).value, actions[1..], day);
    }
  }

  lemma {:induction false} StaleExitsTrim(m: Market, b: Book, ids: seq<SecurityId>, day: Date)
    requires Sound(b)
    ensures Trims(b, ExitStale(m, b, ids, day))
    ensures forall sid :: sid in ids && Stale(m, sid, day) ==> sid !in ExitStale(m, b, ids, day).value.positions
    decreases |ids|
  {
    if ids != [] {
      if Stale(m, ids[0], day) {
        ResolveTrims(b, ids[0], LastClose(m, ids[0], day), day);
      }
      var next := ExitIfStale(m, b, ids[0], day).value;
      StaleExitsTrim(m, next, ids[1..], day);
      assert forall sid :: sid in ids ==> sid == ids[0] || sid in ids[1..];
    }
  }

  /** Opening a session never raises, and afterwards no holding is stale. */
  lemma OpenDayIsSafe(m: Market, b: Book, day: Date)
    requires Sound(b)
    ensures Trims(b, OpenDay(m, b, day)) && NoneStale(m, OpenDay(m, b, day).value.positions, day)
  {
    var actions := EffectiveOn(m.actions, day);
    ActionsTrim(m, b, actions, day);
    var next := ApplyActions(m, b, actions, day).value;
    StaleExitsTrim(m, next, HeldIds(next), day);
    Sorting.AscendingProperties(next.positions.Keys);
  }

  /** Marks for every security that has printed by the day. */
  lemma PrintedMarks(m: Market, day: Date) returns (marks: Marks)
    ensures DayMarks(m, day, marks)
  {
    var sids := set b | b in m.bars :: b.sid;
    marks := map sid | sid in sids && LastPrint(m, sid, day).Some? :: (LastPrint(m, sid, day).value.close as real);
    forall sid | LastPrint(m, sid, day).Some?
      ensures sid in marks
    {
      LastPrintMeaning(m, sid, day);
      var b :| PrintedBy(m.bars, sid, day, b);
      assert b in m.bars && b.sid == sid;
    }
  }

  /** Executing targets opens holdings only in securities that print that day. */
  lemma ExecuteIsSafe(m: Market, cfg: Config, b: Book, targets: Positions, day: Date)
    requires Sound(b) && NonNegativeTargets(targets)
    requires AllMarked(m, b.positions, day) && NoneStale(m, b.positions, day)
    ensures var r := Execute(m, cfg.costs, b, targets, day);
            && r.Success? && Sound(r.value) && b.events <= r.value.events
            && AllMarked(m, r.value.positions, day) && NoneStale(m, r.value.positions, day)
  {
    var marks := PrintedMarks(m, day);
    RebalanceConservesValue(m, cfg.costs, b, targets, day, marks);
    hide Execute;
    var r := Execute(m, cfg.costs, b, targets, day).value;
    forall sid | sid in r.positions
      ensures LastPrint(m, sid, day).Some? && !Stale(m, sid, day)
    {
      if SameDayClose(m, sid, day).None? {
        assert SameHolding(r.positions, b.positions, sid);
      }
    }
  }

  lemma AllMarkedLater(m: Market, positions: Positions, day: Date, later: Date)
    requires day <= later && AllMarked(m, positions, day)
    ensures AllMarked(m, positions, later)
  {
    forall sid | sid in positions
      ensures LastPrint(m, sid, later).Some?
    {
      LastPrintStays(m, sid, day, later);
    }
  }

  /** The condition of the run at the close of a session. */
  ghost predicate SafeClose(m: Market, st: RunState, day: Date) {
    && Sound(st.book) && Solvent(st.book.cash, st.book.positions)
    && AllMarked(m, st.book.positions, day) && NoneStale(m, st.book.positions, day)
  }

  /** The row a close appends: the day, its value at marks, and cash that is never negative. */
  ghost predicate RowOf(m: Market, b: Book, row: DailyRow, day: Date) {
    && row.on == day && row.cash == b.cash && row.cash >= 0.0 && row.positions == |b.positions|
    && ValueOn(m, b, day) == Success(row.value)
  }

  lemma DayStepIsSafe(m: Market, cfg: Config, strategy: Strategy, st: RunState, i: nat)
    requires i < |cfg.sessions| && NonNegativeStrategy(strategy)
    requires Sound(st.book) && AllMarked(m, st.book.positions, cfg.sessions[i])
    ensures var r := DayStep(m, cfg, strategy, st, i);
            && r.Success?
            && SafeClose(m, r.value, cfg.sessions[i])
            && st.book.events <= r.value.book.events
            && |r.value.daily| == |st.daily| + 1 && st.daily <= r.value.daily
            && RowOf(m, r.value.book, r.value.daily[|st.daily|], cfg.sessions[i])
  {
    var day := cfg.sessions[i];
    OpenDayIsSafe(m, st.book, day);
    var open := OpenDay(m, st.book, day).value;
    hide OpenDay;
    var traded := open;
    if day in cfg.rebalanceDays {
      var targets := strategy(m, DecisionClock(cfg, i), open.positions, ValueOn(m, open, day).value);
      ExecuteIsSafe(m, cfg, open, targets, day);
      traded := Execute(m, cfg.costs, open, targets, day).value;
    }
    SoundIsSolvent(traded);
  }

  /** For every dataset and every strategy with non-negative targets, every prefix of a run over
      increasing sessions succeeds, its log extends the previous session's, and its close is safe:
      the log replays to exactly the cash and positions held and never passed through an overdraft
      or a short position, quantities are positive, and every holding has printed within the
      stale-exit window. The daily row records that book. */
  lemma {:induction false} EveryRunIsSafe(m: Market, cfg: Config, strategy: Strategy, n: nat)
    requires NonNegativeStrategy(strategy) && Increasing(cfg.sessions) && n <= |cfg.sessions|
    ensures RunThrough(m, cfg, strategy, n).Success?
    ensures Sound(RunThrough(m, cfg, strategy, n).value.book)
    ensures |RunThrough(m, cfg, strategy, n).value.daily| == n
    ensures n == 0 ==> RunThrough(m, cfg, strategy, n).value.book.positions == map[]
    ensures n > 0 ==>
              var before, after := RunThrough(m, cfg, strategy, n - 1), RunThrough(m, cfg, strategy, n).value;
              && SafeClose(m, after, cfg.sessions[n - 1])
              && before.Success? && before.value.book.events <= after.book.events && before.value.daily <= after.daily
              && RowOf(m, after.book, after.daily[n - 1], cfg.sessions[n - 1])
    decreases n
  {
    hide DayStep;
    hide ValueOn;
    hide AllMarked;
    hide NoneStale;
    hide Solvent;
    if n == 0 {
      hide Sound;
      OpeningIsSound(cfg);
    } else {
      hide Sound;
      EveryRunIsSafe(m, cfg, strategy, n - 1);
      var st := RunThrough(m, cfg, strategy, n - 1).value;
      if n > 1 {
        AllMarkedLater(m, st.book.positions, cfg.sessions[n - 2], cfg.sessions[n - 1]);
      } else {
        NothingToMark(m, cfg.sessions[0]);
      }
      DayStepIsSafe(m, cfg, strategy, st, n - 1);
    }
  }

  lemma NothingToMark(m: Market, day: Date)
    ensures AllMarked(m, map[], day)
  {
  }

  lemma OpeningIsSound(cfg: Config)
    ensures Opened(cfg.initialCash, cfg.start).Success?
    ensures Sound(Opened(cfg.initialCash, cfg.start).value)
    ensures Opened(cfg.initialCash, cfg.start).value.positions == map[]
  {
    assert Sound(EMPTY) by {
      assert forall k :: 0 <= k <= 0 ==> EMPTY.events[..k] == [];
    }
    RecordKeepsSound(EMPTY, DepositEvent(cfg.initialCash, cfg.start));
  }

  /** Selling out at the last close, as stale exits and delistings without cash terms do, leaves
      value at the day's marks exactly where it was. */
  lemma ExitAtMarkIsNeutral(m: Market, b: Book, sid: SecurityId, day: Date, marks: Marks)
    requires Sound(b) && DayMarks(m, day, marks) && LastPrint(m, sid, day).Some?
    ensures var r := ResolveDelisting(b, sid, LastClose(m, sid, day), day);
            r.Success? && ValueOf(r.value, marks) == ValueOf(b, marks)
  {
    var held := Quantity(b.positions, sid);
    var close := LastClose(m, sid, day).value;
    ResolveTrims(b, sid, Some(close), day);
    if held > 0 {
      TimesNegated(close, held);
      RecordValue(b, LedgerEvent(day, DelistingProceeds, Some(sid), -held, Times(close, held as real), Some(close), 0.0), marks);
    }
  }
}
