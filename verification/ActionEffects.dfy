/** What each corporate action does to the book it is applied to, in the action's own terms. */
module ActionEffects {
  import opened Arithmetic
  import opened Domain
  import opened Markets
  import opened Ledger
  import opened Trading
  import opened Engine

  /** Nothing but one security's holding differs. */
  ghost predicate OnlyHolding(b: Book, r: Book, sid: SecurityId) {
    forall s :: s != sid ==> SameHolding(r.positions, b.positions, s)
  }

  ghost predicate Closed(b: Book, r: Book, sid: SecurityId) {
    sid !in r.positions && OnlyHolding(b, r, sid)
  }

  /** A fraction of a share below one. */
  ghost predicate ProperFraction(f: real) {
    0.0 <= f < 1.0
  }

  lemma WholeAndFraction(n: int, d: PositiveInt)
    requires n >= 0
    ensures n / d >= 0 && (n / d) as real + (n % d) as real / d as real == n as real / d as real
    ensures 0.0 <= (n % d) as real / d as real < 1.0
  {
    SplitParts(n, d);
  }

  /** A split leaves the whole shares of held times new over old, pays the fraction of a share at the
      last close, and moves value at any marks that mark the security at that close by the change in the
      exact count. Without a holding or a print it leaves the book alone. */
  lemma SplitEffect(m: Market, b: Book, a: Action, day: Date, marks: Marks)
    requires Sound(b) && a.Split? && DayMarks(m, day, marks)
    ensures var r, held := ApplyAction(m, b, a, day), Quantity(b.positions, a.sid);
            && r.Success?
            && (held == 0 || LastPrint(m, a.sid, day).None? ==> r.value == b)
            && (held > 0 && LastPrint(m, a.sid, day).Some? ==>
                  var close, exact := LastPrint(m, a.sid, day).value.close, (held * a.newShares) as real / a.oldShares as real;
                  var whole := Quantity(r.value.positions, a.sid);
                  && whole >= 0 && ProperFraction(exact - whole as real)
                  && r.value.cash == b.cash + Times(close, exact - whole as real)
                  && OnlyHolding(b, r.value, a.sid)
                  && ValueOf(r.value, marks) == ValueOf(b, marks) + Times(close, exact) - Times(close, held as real))
  {
    SoundIsSolvent(b);
    var held := Quantity(b.positions, a.sid);
    if held > 0 && LastPrint(m, a.sid, day).Some? {
      var close := LastPrint(m, a.sid, day).value.close;
      WholeAndFraction(held * a.newShares, a.oldShares);
      TimesUnits(close);
      SplitConservesValue(b, a.sid, a.newShares, a.oldShares, close, day, marks);
      hide Worth;
    }
  }

  /** A dividend credits its amount per share held, a pound being a hundred pence; one that does not
      convert to pence, or falls on no holding, leaves the book alone. */
  lemma DividendEffect(m: Market, b: Book, a: Action, day: Date)
    requires Sound(b) && a.Dividend?
    ensures var r, held := ApplyAction(m, b, a, day), Quantity(b.positions, a.sid);
            && r.Success?
            && r.value.positions == b.positions
            && (held == 0 || a.currency.Foreign? ==> r.value == b)
            && (a.currency.GBX? ==> r.value.cash == b.cash + Times(a.amount, held as real))
            && (a.currency.GBP? ==> r.value.cash == b.cash + Times(Times(a.amount, 100.0), held as real))
  {
    SoundIsSolvent(b);
    var held := Quantity(b.positions, a.sid);
    TimesNonNegative(a.amount, 100.0);
    TimesUnits(a.amount);
    TimesUnits(Times(a.amount, 100.0));
    TimesNonNegative(a.amount, held as real);
    TimesNonNegative(Times(a.amount, 100.0), held as real);
    hide Times;
  }

  /** A merger with cash terms closes the holding for them, converted as a dividend is, and writes it
      off when they do not convert; one without cash terms leaves the book alone. */
  lemma MergerEffect(m: Market, b: Book, a: Action, day: Date)
    requires Sound(b) && a.Merger?
    ensures var r, held := ApplyAction(m, b, a, day), Quantity(b.positions, a.sid);
            && r.Success?
            && (a.cash.None? || held == 0 ==> r.value == b)
            && (a.cash.Some? && held > 0 ==>
                  && Closed(b, r.value, a.sid)
                  && (a.cashCurrency.GBX? ==> r.value.cash == b.cash + Times(a.cash.value, held as real))
                  && (a.cashCurrency.GBP? ==> r.value.cash == b.cash + Times(Times(a.cash.value, 100.0), held as real))
                  && (a.cashCurrency.Foreign? ==> r.value.cash == b.cash))
  {
    SoundIsSolvent(b);
    var held := Quantity(b.positions, a.sid);
    if a.cash.Some? {
      TimesNonNegative(a.cash.value, 100.0);
      TimesNonNegative(a.cash.value, held as real);
      TimesNonNegative(Times(a.cash.value, 100.0), held as real);
    }
    hide Times;
  }

  /** A delisting closes the holding: for nothing after a failure, for the last close otherwise, and for
      nothing when there never was one. */
  lemma DelistingEffect(m: Market, b: Book, a: Action, day: Date)
    requires Sound(b) && a.DelistingAction?
    ensures var r, held := ApplyAction(m, b, a, day), Quantity(b.positions, a.sid);
            && r.Success?
            && (held == 0 ==> r.value == b)
            && (held > 0 ==>
                  && Closed(b, r.value, a.sid)
                  && r.value.cash == b.cash + (if a.reason.FailureExit? || LastPrint(m, a.sid, day).None? then 0.0
                                               else Times(LastPrint(m, a.sid, day).value.close, held as real)))
  {
    SoundIsSolvent(b);
    var held := Quantity(b.positions, a.sid);
    TimesUnits(held as real);
    if LastPrint(m, a.sid, day).Some? {
      TimesNonNegative(LastPrint(m, a.sid, day).value.close, held as real);
    }
    hide Times;
    hide LastPrint;
  }

  /** Rights issues and ticker changes are not the ledger's business. */
  lemma OtherActionsLeaveBook(m: Market, b: Book, a: Action, day: Date)
    requires a.RightsIssue? || a.TickerChangeAction?
    ensures ApplyAction(m, b, a, day) == Success(b)
  {
  }

  /** A stale holding leaves for its last close, and a fresh one stays. */
  lemma StaleExitEffect(m: Market, b: Book, sid: SecurityId, day: Date)
    requires Sound(b)
    ensures var r, held, found := ExitIfStale(m, b, sid, day), Quantity(b.positions, sid), LastPrint(m, sid, day);
            && r.Success?
            && (held == 0 || found.None? || day - found.value.date <= STALE_EXIT_DAYS ==> r.value == b)
            && (held > 0 && found.Some? && day - found.value.date > STALE_EXIT_DAYS ==>
                  Closed(b, r.value, sid) && r.value.cash == b.cash + Times(found.value.close, held as real))
  {
    SoundIsSolvent(b);
    var held := Quantity(b.positions, sid);
    if LastPrint(m, sid, day).Some? {
      TimesNonNegative(LastPrint(m, sid, day).value.close, held as real);
    }
    hide Times;
    hide LastPrint;
  }
}
