/** Backward-looking rolling windows over a date-sorted series.

    The window's start index is only ever carried forward, which is right because the clamped month
    shift is monotone. */
module Rolling {
  import opened Domain
  import opened Calendar

  datatype Window = TradingDays(days: int) | CalendarMonths(months: int)

  datatype RollingError = Unsorted | Calendar(error: CalendarError) | IndexError

  /** One output row: how many observations the window holds and, with enough of them, its statistic. */
  datatype Row = Row(day: Civil, observations: nat, statistic: Option<real>)

  ghost predicate SortedDates(dates: seq<Civil>) {
    forall i, j :: 0 <= i < j < |dates| ==> AtMost(dates[i], dates[j])
  }

  ghost predicate AllDates(dates: seq<Civil>) {
    forall i :: 0 <= i < |dates| ==> IsDate(dates[i])
  }

  /** The month the window of `dates[i]` reaches back to exists. */
  ghost predicate Reaches(dates: seq<Civil>, months: int) {
    forall i :: 0 <= i < |dates| ==> ShiftMonths(dates[i], -months).Success?
  }

  /** `start` is the first position dated after the cutoff of position `i`. */
  ghost predicate StartsMonths(dates: seq<Civil>, months: int, i: nat, start: nat)
    requires i < |dates|
  {
    && ShiftMonths(dates[i], -months).Success?
    && start <= i
    && Before(ShiftMonths(dates[i], -months).value, dates[start])
    && forall j :: 0 <= j < start ==> AtMost(dates[j], ShiftMonths(dates[i], -months).value)
  }

  ghost predicate Starts(dates: seq<Civil>, w: Window, i: nat, start: nat)
    requires i < |dates|
  {
    match w
    case TradingDays(n) => start == Max(0, i + 1 - n)
    case CalendarMonths(m) => StartsMonths(dates, m, i, start)
  }

  function Slice(values: seq<real>, start: nat, stop: nat): seq<real>
    requires stop <= |values|
  {
    if start <= stop then values[start..stop] else []
  }

  function RowFor(day: Civil, window: seq<real>, stat: seq<real> -> real, minObservations: nat): Row {
    Row(day, |window|, if |window| >= minObservations then Some(stat(window)) else None)
  }

  /** Row `i` reports on exactly the values from the window's start to position `i`. */
  ghost predicate RowRight(dates: seq<Civil>, values: seq<real>, w: Window, stat: seq<real> -> real, minObservations: nat, i: nat, row: Row)
    requires i < |dates| == |values|
  {
    exists start: nat :: Starts(dates, w, i, start) && row == RowFor(dates[i], Slice(values, start, i + 1), stat, minObservations)
  }

  /** When the carried start index stays in bounds. */
  ghost predicate CanRoll(dates: seq<Civil>, w: Window) {
    match w
    case TradingDays(_) => true
    case CalendarMonths(m) => dates == [] || (m >= 1 && Reaches(dates, m))
  }

  /** The cutoffs of successive positions never move back, so neither does the start. */
  lemma CutoffsAdvance(dates: seq<Civil>, months: int, i: int, j: int, k: int)
    requires AllDates(dates) && SortedDates(dates) && 0 <= i <= j < |dates| && 0 <= k < |dates|
    requires ShiftMonths(dates[i], -months).Success? && ShiftMonths(dates[j], -months).Success?
    requires AtMost(dates[k], ShiftMonths(dates[i], -months).value)
    ensures AtMost(dates[k], ShiftMonths(dates[j], -months).value)
  {
    assert i == j || AtMost(dates[i], dates[j]);
    ShiftIsMonotone(dates[i], dates[j], -months);
  }

  /** Every date before the carried start is at or before the cutoff of position `i`. */
  ghost predicate PassedOver(dates: seq<Civil>, months: int, i: nat, start: nat)
    requires i < |dates|
  {
    ShiftMonths(dates[i], -months).Success? ==>
      forall j :: 0 <= j < start ==> j < |dates| && AtMost(dates[j], ShiftMonths(dates[i], -months).value)
  }

  /** Carries the start forward past every date at or before the cutoff. For a window of at least one
      month it never runs off the end; for any other it stops, if at all, after position `i`. */
  method AdvanceStart(dates: seq<Civil>, months: int, i: nat, start: nat) returns (r: Result<nat, RollingError>)
    requires AllDates(dates) && i < |dates|
    requires months >= 1 ==> start <= i && PassedOver(dates, months, i, start)
    ensures ShiftMonths(dates[i], -months).Failure? ==> r.Failure? && r.error.Calendar?
    ensures r.Failure? ==> r.error != Unsorted && !CanRoll(dates, CalendarMonths(months))
    ensures months >= 1 && ShiftMonths(dates[i], -months).Success? ==>
              r.Success? && StartsMonths(dates, months, i, r.value)
    ensures r.Success? ==> r.value < |dates| && (months < 1 ==> Before(dates[i], dates[r.value]))
  {
    var shifted := ShiftMonths(dates[i], -months);
    if shifted.Failure? {
      return Failure(Calendar(shifted.error));
    }
    var cutoff := shifted.value;
    ShiftBackIsEarlier(dates[i], -months);
    ShiftLands(dates[i], -months);
    var at := start;
    while true
      invariant months >= 1 ==> at <= i && PassedOver(dates, months, i, at)
      decreases |dates| - at
    {
      if at >= |dates| {
        return Failure(IndexError);
      }
      if !AtMost(dates[at], cutoff) {
        break;
      }
      at := at + 1;
    }
    r := Success(at);
  }

  method CheckSorted(dates: seq<Civil>) returns (sorted: bool)
    ensures sorted <==> SortedDates(dates)
  {
    for i := 0 to |dates|
      invariant SortedDates(dates[..i])
    {
      if i > 0 && Before(dates[i], dates[i - 1]) {
        assert !AtMost(dates[i - 1], dates[i]);
        return false;
      }
      forall j | 0 <= j < i
        ensures AtMost(dates[j], dates[i])
      {
        assert j == i - 1 || AtMost(dates[..i][j], dates[..i][i - 1]);
      }
    }
    assert dates[..|dates|] == dates;
    return true;
  }

  lemma NextPassedOver(dates: seq<Civil>, months: int, i: nat, start: nat)
    requires AllDates(dates) && SortedDates(dates) && i + 1 < |dates| && StartsMonths(dates, months, i, start)
    ensures PassedOver(dates, months, i + 1, start)
  {
    hide ShiftMonths;
    hide AtMost;
    hide Before;
    hide AllDates;
    hide SortedDates;
    if ShiftMonths(dates[i + 1], -months).Success? {
      forall j | 0 <= j < start
        ensures AtMost(dates[j], ShiftMonths(dates[i + 1], -months).value)
      {
        CutoffsAdvance(dates, months, i, i + 1, j);
      }
    }
  }

  /** The method's progress: rows so far are right, or the window is not one that can be rolled. */
  ghost predicate Progress(dates: seq<Civil>, values: seq<real>, w: Window, stat: seq<real> -> real, minObservations: nat,
                           rows: seq<Row>, start: nat)
    requires |dates| == |values|
  {
    var i := |rows|;
    && i <= |dates|
    && match w {
      case TradingDays(_) =>
        forall k :: 0 <= k < i ==> RowRight(dates, values, w, stat, minObservations, k, rows[k])
      case CalendarMonths(m) =>
        && (forall k :: 0 <= k < i ==> ShiftMonths(dates[k], -m).Success?)
        && (i == 0 ==> start == 0)
        && (m >= 1 && i > 0 ==> StartsMonths(dates, m, i - 1, start))
        && (m >= 1 ==> forall k :: 0 <= k < i ==> RowRight(dates, values, w, stat, minObservations, k, rows[k]))
        && (m < 1 && i > 0 ==> start < |dates| && Before(dates[i - 1], dates[start]))
    }
  }

  lemma NoRows(dates: seq<Civil>, values: seq<real>, w: Window, stat: seq<real> -> real, minObservations: nat)
    requires |dates| == |values|
    ensures Progress(dates, values, w, stat, minObservations, [], 0)
  {
  }

  lemma NothingPassedOver(dates: seq<Civil>, months: int, i: nat)
    requires i < |dates|
    ensures PassedOver(dates, months, i, 0)
  {
  }

  lemma BeforeAdvance(dates: seq<Civil>, values: seq<real>, m: int, stat: seq<real> -> real, minObservations: nat, rows: seq<Row>, start: nat)
    requires |dates| == |values| && AllDates(dates) && SortedDates(dates) && |rows| < |dates|
    requires Progress(dates, values, CalendarMonths(m), stat, minObservations, rows, start)
    ensures m >= 1 ==> start <= |rows| && PassedOver(dates, m, |rows|, start)
  {
    hide ShiftMonths;
    hide RowRight;
    hide PassedOver;
    if m >= 1 && |rows| == 0 {
      NothingPassedOver(dates, m, 0);
    }
    if m >= 1 && |rows| > 0 {
      NextPassedOver(dates, m, |rows| - 1, start);
    }
  }

  lemma NextRow(dates: seq<Civil>, values: seq<real>, w: Window, stat: seq<real> -> real, minObservations: nat,
                rows: seq<Row>, before: nat, start: nat)
    requires |dates| == |values| && |rows| < |dates|
    requires Progress(dates, values, w, stat, minObservations, rows, before)
    requires w.TradingDays? ==> start == Max(0, |rows| + 1 - w.days)
    requires w.CalendarMonths? ==> ShiftMonths(dates[|rows|], -w.months).Success?
                                   && (w.months >= 1 ==> StartsMonths(dates, w.months, |rows|, start))
                                   && (w.months < 1 ==> start < |dates| && Before(dates[|rows|], dates[start]))
    ensures Progress(dates, values, w, stat, minObservations,
                     rows + [RowFor(dates[|rows|], Slice(values, start, |rows| + 1), stat, minObservations)], start)
  {
    hide StartsMonths;
    hide Slice;
    hide RowFor;
    hide ShiftMonths;
    var row := RowFor(dates[|rows|], Slice(values, start, |rows| + 1), stat, minObservations);
    if w.TradingDays? || w.months >= 1 {
      assert Starts(dates, w, |rows|, start);
      assert RowRight(dates, values, w, stat, minObservations, |rows|, row);
    }
  }

  lemma AllRows(dates: seq<Civil>, values: seq<real>, w: Window, stat: seq<real> -> real, minObservations: nat, rows: seq<Row>, start: nat)
    requires |dates| == |values| == |rows| && SortedDates(dates)
    requires Progress(dates, values, w, stat, minObservations, rows, start)
    ensures CanRoll(dates, w)
    ensures forall i :: 0 <= i < |dates| ==> RowRight(dates, values, w, stat, minObservations, i, rows[i])
  {
    hide StartsMonths;
    hide RowRight;
    if w.CalendarMonths? && w.months < 1 && dates != [] {
      assert false;
    }
  }

  /** The rolling rows succeed exactly when a month window reaches back at least one month and stays
      within the calendar; every row then covers the window's definition, although the start index is
      only ever carried forward. */
  method RollingMetrics(dates: seq<Civil>, values: seq<real>, w: Window, minObservations: nat, stat: seq<real> -> real)
    returns (r: Result<seq<Row>, RollingError>)
    requires |dates| == |values| && AllDates(dates)
    ensures r.Success? <==> SortedDates(dates) && CanRoll(dates, w)
    ensures r == Failure(Unsorted) <==> !SortedDates(dates)
    ensures r.Success? ==> |r.value| == |dates| && forall i :: 0 <= i < |dates| ==>
                             RowRight(dates, values, w, stat, minObservations, i, r.value[i])
  {
    var sorted := CheckSorted(dates);
    if !sorted {
      return Failure(Unsorted);
    }
    hide *;
    var rows: seq<Row> := [];
    var start: nat := 0;
    NoRows(dates, values, w, stat, minObservations);
    for i := 0 to |dates|
      invariant |rows| == i && Progress(dates, values, w, stat, minObservations, rows, start)
    {
      ghost var before := start;
      match w {
        case TradingDays(n) =>
          start := Max(0, i + 1 - n);
        case CalendarMonths(m) =>
          BeforeAdvance(dates, values, m, stat, minObservations, rows, start);
          var moved := AdvanceStart(dates, m, i, start);
          if moved.Failure? {
            return Failure(moved.error);
          }
          start := moved.value;
      }
      NextRow(dates, values, w, stat, minObservations, rows, before, start);
      rows := rows + [RowFor(dates[i], Slice(values, start, i + 1), stat, minObservations)];
    }
    AllRows(dates, values, w, stat, minObservations, rows, start);
    r := Success(rows);
  }

  /** A start position is fixed by the dates up to its row, so a row never depends on later dates or
      values. */
  lemma RowsLookOnlyBack(d1: seq<Civil>, v1: seq<real>, d2: seq<Civil>, v2: seq<real>, w: Window,
                         stat: seq<real> -> real, minObservations: nat, i: nat, r1: Row, r2: Row)
    requires i < |d1| == |v1| && i < |d2| == |v2|
    requires d1[..i + 1] == d2[..i + 1] && v1[..i + 1] == v2[..i + 1]
    requires RowRight(d1, v1, w, stat, minObservations, i, r1) && RowRight(d2, v2, w, stat, minObservations, i, r2)
    ensures r1 == r2
  {
    var s1: nat :| Starts(d1, w, i, s1) && r1 == RowFor(d1[i], Slice(v1, s1, i + 1), stat, minObservations);
    var s2: nat :| Starts(d2, w, i, s2) && r2 == RowFor(d2[i], Slice(v2, s2, i + 1), stat, minObservations);
    assert d1[i] == d1[..i + 1][i] && d2[i] == d2[..i + 1][i];
    if w.CalendarMonths? {
      assert d1[s1] == d1[..i + 1][s1] == d2[s1];
      assert d2[s2] == d2[..i + 1][s2] == d1[s2];
      assert s1 == s2;
    }
    if s1 <= i + 1 {
      assert v1[s1..i + 1] == v1[..i + 1][s1..] == v2[..i + 1][s1..] == v2[s1..i + 1];
    }
  }
}
