/** Sequencing restated fundamentals as new rows, and answering from what was available. */
module Revisions {
  import opened Domain
  import opened Sorting

  datatype Statement = Income | Balance | CashFlow

  datatype Period = Annual | Interim | Quarterly

  /** The revision key. */
  datatype SeriesKey = SeriesKey(sid: SecurityId, statement: Statement, item: string, periodEnd: Date, period: Period)

  datatype FundamentalValue = FundamentalValue(
    key: SeriesKey, currency: string, value: real, availableAt: Instant, revisedAt: Option<Instant>, sequence: nat)

  /** What every stored row must satisfy: nothing is available before its period ends, and exactly the
      revisions carry `revisedAt`. */
  predicate PointInTime(r: FundamentalValue) {
    && r.key.periodEnd * MICROS_PER_DAY <= r.availableAt
    && (r.sequence > 0 <==> r.revisedAt.Some?)
  }

  datatype RevisionError = BrokenSeries | CurrencyChanged | OutOfOrder

  datatype Classification = Classification(toAppend: seq<FundamentalValue>, repeated: nat, newFacts: nat, revisions: nat)

  // ----- the series of one key

  function RowsOf(table: seq<FundamentalValue>, key: SeriesKey): (s: seq<FundamentalValue>)
    ensures forall r :: r in s <==> r in table && r.key == key
  {
    if table == [] then []
    else if table[|table| - 1].key == key then RowsOf(table[..|table| - 1], key) + [table[|table| - 1]]
    else RowsOf(table[..|table| - 1], key)
  }

  predicate SequenceLeq(a: FundamentalValue, b: FundamentalValue) {
    a.sequence <= b.sequence
  }

  function SeriesFor(table: seq<FundamentalValue>, key: SeriesKey): seq<FundamentalValue> {
    SortBy(RowsOf(table, key), SequenceLeq)
  }

  predicate Contiguous(s: seq<FundamentalValue>) {
    forall i :: 0 <= i < |s| ==> s[i].sequence == i
  }

  predicate RevisedBefore(a: FundamentalValue, b: FundamentalValue) {
    a.revisedAt.Some? && b.revisedAt.Some? && a.revisedAt.value < b.revisedAt.value
  }

  /** What the series check looks at: contiguous sequences and increasing revision stamps. */
  predicate CheckedSeries(s: seq<FundamentalValue>) {
    && Contiguous(s)
    && forall i :: 1 <= i < |s| - 1 ==> RevisedBefore(s[i], s[i + 1])
  }

  // ----- classification by definition, over the table of all rows so far

  /** The row an observation adds after the given series, if any. */
  function AppendedRow(s: seq<FundamentalValue>, o: FundamentalValue): Result<seq<FundamentalValue>, RevisionError> {
    if s == [] then Success([FundamentalValue(o.key, o.currency, o.value, o.availableAt, None, 0)])
    else
      var latest := s[|s| - 1];
      if latest.currency != o.currency then Failure(CurrencyChanged)
      else if latest.value == o.value then Success([])
      else if o.availableAt <= latest.availableAt then Failure(OutOfOrder)
      else Success([FundamentalValue(o.key, o.currency, o.value, o.availableAt, Some(o.availableAt), latest.sequence + 1)])
  }

  function Appended(table: seq<FundamentalValue>, incoming: seq<FundamentalValue>): Result<seq<FundamentalValue>, RevisionError>
    decreases |incoming|
  {
    if incoming == [] then Success([])
    else
      var first :- AppendedRow(SeriesFor(table, incoming[0].key), incoming[0]);
      var rest :- Appended(table + first, incoming[1..]);
      Success(first + rest)
  }

  ghost predicate Acceptable(existing: seq<FundamentalValue>) {
    forall key :: CheckedSeries(SeriesFor(existing, key))
  }

  // ----- the table and its series

  lemma {:induction false} RowsOfSum(a: seq<FundamentalValue>, b: seq<FundamentalValue>, key: SeriesKey)
    ensures RowsOf(a + b, key) == RowsOf(a, key) + RowsOf(b, key)
    decreases |b|
  {
    if b == [] {
      assert a + b == a;
    } else {
      assert (a + b)[..|a + b| - 1] == a + b[..|b| - 1];
      RowsOfSum(a, b[..|b| - 1], key);
    }
  }

  lemma {:induction false} InsertBelow(a: FundamentalValue, t: seq<FundamentalValue>, x: FundamentalValue)
    requires a.sequence <= x.sequence
    ensures Insert(a, t + [x], SequenceLeq) == Insert(a, t, SequenceLeq) + [x]
  {
    if t != [] {
      assert (t + [x])[1..] == t[1..] + [x];
      InsertBelow(a, t[1..], x);
    }
  }

  lemma {:induction false} SortThenAppend(s: seq<FundamentalValue>, x: FundamentalValue)
    requires forall r :: r in s ==> r.sequence <= x.sequence
    ensures SortBy(s + [x], SequenceLeq) == SortBy(s, SequenceLeq) + [x]
  {
    if s != [] {
      assert (s + [x])[1..] == s[1..] + [x];
      SortThenAppend(s[1..], x);
      assert s[0] in s;
      InsertBelow(s[0], SortBy(s[1..], SequenceLeq), x);
    } else {
      assert [x][1..] == [];
      assert s + [x] == [x];
    }
  }

  lemma SeriesMembers(table: seq<FundamentalValue>, key: SeriesKey)
    ensures forall r :: r in SeriesFor(table, key) <==> r in table && r.key == key
  {
    SameElements(SeriesFor(table, key), RowsOf(table, key));
  }

  lemma OneRow(x: FundamentalValue, key: SeriesKey)
    ensures RowsOf([x], key) == if x.key == key then [x] else []
  {
    assert [x][..0] == [];
  }

  /** Appending the next row of a contiguous series to the table extends that series and no other. */
  lemma AppendExtends(table: seq<FundamentalValue>, x: FundamentalValue, key: SeriesKey)
    requires Contiguous(SeriesFor(table, x.key)) && x.sequence == |SeriesFor(table, x.key)|
    ensures SeriesFor(table + [x], key) == if key == x.key then SeriesFor(table, key) + [x] else SeriesFor(table, key)
  {
    RowsOfSum(table, [x], key);
    OneRow(x, key);
    hide RowsOf;
    if key == x.key {
      var s := SeriesFor(table, key);
      SameElements(s, RowsOf(table, key));
      forall r | r in RowsOf(table, key)
        ensures r.sequence <= x.sequence
      {
        var i :| 0 <= i < |s| && s[i] == r;
      }
      SortThenAppend(RowsOf(table, key), x);
    } else {
      assert RowsOf(table, key) + [] == RowsOf(table, key);
    }
  }

  // ----- the invariant of a table built by classification alone

  /** Contiguous, strictly later each time, and stamped as revised when it became available. */
  ghost predicate WellSequenced(s: seq<FundamentalValue>) {
    && Contiguous(s)
    && (forall i, j :: 0 <= i < j < |s| ==> s[i].availableAt < s[j].availableAt)
    && (forall i :: 1 <= i < |s| ==> s[i].revisedAt == Some(s[i].availableAt))
  }

  ghost predicate WellSequencedTable(table: seq<FundamentalValue>) {
    forall key :: WellSequenced(SeriesFor(table, key))
  }

  ghost predicate ContiguousTable(table: seq<FundamentalValue>) {
    forall key :: Contiguous(SeriesFor(table, key))
  }

  /** Adding these rows extends the series of `key` by them and leaves every other series alone. */
  ghost predicate ExtendsOnly(table: seq<FundamentalValue>, key: SeriesKey, rows: seq<FundamentalValue>) {
    forall k :: SeriesFor(table + rows, k) == if k == key then SeriesFor(table, k) + rows else SeriesFor(table, k)
  }

  lemma OneAppended(table: seq<FundamentalValue>, o: FundamentalValue)
    requires ContiguousTable(table)
    requires AppendedRow(SeriesFor(table, o.key), o).Success?
    ensures ExtendsOnly(table, o.key, AppendedRow(SeriesFor(table, o.key), o).value)
  {
    hide SeriesFor;
    var s := SeriesFor(table, o.key);
    var a := AppendedRow(s, o).value;
    assert Contiguous(s);
    forall key
      ensures SeriesFor(table + a, key) == if key == o.key then SeriesFor(table, key) + a else SeriesFor(table, key)
    {
      if a != [] {
        assert a[0].key == o.key && a == [a[0]];
        AppendExtends(table, a[0], key);
      } else {
        assert table + [] == table && SeriesFor(table, key) + [] == SeriesFor(table, key);
      }
    }
  }

  lemma NextInSeries(s: seq<FundamentalValue>, o: FundamentalValue)
    requires Contiguous(s) && AppendedRow(s, o).Success?
    ensures Contiguous(s + AppendedRow(s, o).value)
    ensures WellSequenced(s) ==> WellSequenced(s + AppendedRow(s, o).value)
  {
  }

  lemma OneKeeps(table: seq<FundamentalValue>, o: FundamentalValue)
    requires ContiguousTable(table)
    requires AppendedRow(SeriesFor(table, o.key), o).Success?
    ensures var next := table + AppendedRow(SeriesFor(table, o.key), o).value;
            ContiguousTable(next) && (WellSequencedTable(table) ==> WellSequencedTable(next))
  {
    var s := SeriesFor(table, o.key);
    var a := AppendedRow(s, o).value;
    var next := table + a;
    OneAppended(table, o);
    assert Contiguous(s);
    NextInSeries(s, o);
    assert WellSequencedTable(table) ==> WellSequenced(s);
    hide SeriesFor;
    hide AppendedRow;
    hide Contiguous;
    hide WellSequenced;
    forall key
      ensures Contiguous(SeriesFor(next, key)) && (WellSequencedTable(table) ==> WellSequenced(SeriesFor(next, key)))
    {
      assert Contiguous(SeriesFor(table, key));
      assert WellSequencedTable(table) ==> WellSequenced(SeriesFor(table, key));
      assert SeriesFor(table + a, key) == if key == o.key then SeriesFor(table, key) + a else SeriesFor(table, key);
    }
  }

  /** An accepted batch starts with an accepted observation and continues with an accepted batch. */
  lemma FirstOfBatch(table: seq<FundamentalValue>, incoming: seq<FundamentalValue>)
    returns (a: seq<FundamentalValue>, next: seq<FundamentalValue>)
    requires ContiguousTable(table) && incoming != [] && Appended(table, incoming).Success?
    ensures AppendedRow(SeriesFor(table, incoming[0].key), incoming[0]) == Success(a)
    ensures next == table + a && Appended(next, incoming[1..]).Success?
    ensures table + Appended(table, incoming).value == next + Appended(next, incoming[1..]).value
    ensures ContiguousTable(next) && (WellSequencedTable(table) ==> WellSequencedTable(next))
    ensures forall key :: SeriesFor(next, key) == SeriesFor(table, key) + (if key == incoming[0].key then a else [])
  {
    hide SeriesFor;
    hide AppendedRow;
    hide ContiguousTable;
    hide WellSequencedTable;
    var o := incoming[0];
    a := AppendedRow(SeriesFor(table, o.key), o).value;
    next := table + a;
    OneKeeps(table, o);
    OneAppended(table, o);
    hide Appended;
    UnfoldAppended(table, incoming, 0);
    assert incoming[0..] == incoming;
    assert table + (a + Appended(next, incoming[1..]).value) == next + Appended(next, incoming[1..]).value;
    forall key
      ensures SeriesFor(next, key) == SeriesFor(table, key) + (if key == o.key then a else [])
    {
      assert SeriesFor(table + a, key) == if key == o.key then SeriesFor(table, key) + a else SeriesFor(table, key);
      assert SeriesFor(table, key) + [] == SeriesFor(table, key);
    }
  }

  lemma NoBatch(table: seq<FundamentalValue>)
    ensures table + Appended(table, []).value == table
  {
  }

  /** Every series stays contiguous, and a table whose series become available in strictly increasing
      order keeps that. */
  lemma {:induction false} BatchKeepsSequences(table: seq<FundamentalValue>, incoming: seq<FundamentalValue>)
    requires ContiguousTable(table) && Appended(table, incoming).Success?
    ensures var next := table + Appended(table, incoming).value;
            ContiguousTable(next) && (WellSequencedTable(table) ==> WellSequencedTable(next))
    decreases |incoming|
  {
    hide SeriesFor;
    hide Appended;
    hide AppendedRow;
    hide ContiguousTable;
    hide WellSequencedTable;
    if incoming == [] {
      NoBatch(table);
    } else {
      var a, next := FirstOfBatch(table, incoming);
      BatchKeepsSequences(next, incoming[1..]);
    }
  }

  /** Rows stored from valid observations are valid: only revisions carry a revision stamp. */
  lemma {:induction false} StoredRowsArePointInTime(table: seq<FundamentalValue>, incoming: seq<FundamentalValue>)
    requires Appended(table, incoming).Success? && forall o :: o in incoming ==> PointInTime(o)
    ensures forall r :: r in Appended(table, incoming).value ==> PointInTime(r)
    decreases |incoming|
  {
    hide SeriesFor;
    if incoming != [] {
      assert PointInTime(incoming[0]);
      var a := AppendedRow(SeriesFor(table, incoming[0].key), incoming[0]).value;
      StoredRowsArePointInTime(table + a, incoming[1..]);
    }
  }

  lemma WellSequencedIsChecked(table: seq<FundamentalValue>)
    requires WellSequencedTable(table)
    ensures Acceptable(table) && ContiguousTable(table)
  {
    forall key
      ensures CheckedSeries(SeriesFor(table, key)) && Contiguous(SeriesFor(table, key))
    {
      assert WellSequenced(SeriesFor(table, key));
    }
  }

  /** The table after classifying batch after batch, a refused batch leaving it as it was. */
  function AfterBatches(batches: seq<seq<FundamentalValue>>): seq<FundamentalValue> {
    if batches == [] then []
    else
      var before := AfterBatches(batches[..|batches| - 1]);
      match Appended(before, batches[|batches| - 1])
      case Success(rows) => before + rows
      case Failure(_) => before
  }

  /** Over any run of batches from an empty table every series is well sequenced, so the series check
      never refuses a table that classification built. */
  lemma {:induction false} EveryRunIsWellSequenced(batches: seq<seq<FundamentalValue>>)
    ensures WellSequencedTable(AfterBatches(batches)) && Acceptable(AfterBatches(batches))
  {
    if batches == [] {
      assert forall key :: SeriesFor([], key) == [];
      WellSequencedIsChecked([]);
    } else {
      var front, last := batches[..|batches| - 1], batches[|batches| - 1];
      EveryRunIsWellSequenced(front);
      var before := AfterBatches(front);
      WellSequencedIsChecked(before);
      if Appended(before, last).Success? {
        BatchKeepsSequences(before, last);
        WellSequencedIsChecked(before + Appended(before, last).value);
      }
    }
  }

  // ----- the answer as at an instant

  function Knowable(table: seq<FundamentalValue>, asOf: Instant): (s: seq<FundamentalValue>)
    ensures forall r :: r in s <==> r in table && r.availableAt <= asOf
  {
    if table == [] then []
    else if table[0].availableAt <= asOf then [table[0]] + Knowable(table[1..], asOf)
    else Knowable(table[1..], asOf)
  }

  /** The last row of the key after sorting the knowable rows by sequence. */
  function Answer(table: seq<FundamentalValue>, key: SeriesKey, asOf: Instant): Option<FundamentalValue> {
    var s := RowsOf(SortBy(Knowable(table, asOf), SequenceLeq), key);
    if s == [] then None else Some(s[|s| - 1])
  }

  lemma {:induction false} RowsOfSorted(s: seq<FundamentalValue>, key: SeriesKey)
    requires Sorted(s, SequenceLeq)
    ensures Sorted(RowsOf(s, key), SequenceLeq)
  {
    if s != [] {
      var front, z := s[..|s| - 1], s[|s| - 1];
      RowsOfSorted(front, key);
      forall r | r in RowsOf(front, key)
        ensures SequenceLeq(r, z)
      {
        assert r in front;
        var i :| 0 <= i < |front| && front[i] == r;
        assert SequenceLeq(s[i], s[|s| - 1]);
      }
    }
  }

  lemma KnowableRows(table: seq<FundamentalValue>, key: SeriesKey, asOf: Instant)
    ensures var s := RowsOf(SortBy(Knowable(table, asOf), SequenceLeq), key);
            Sorted(s, SequenceLeq) && forall r :: r in s <==> r in table && r.key == key && r.availableAt <= asOf
  {
    var sorted := SortBy(Knowable(table, asOf), SequenceLeq);
    SortedSortBy(Knowable(table, asOf), SequenceLeq);
    SameElements(sorted, Knowable(table, asOf));
    RowsOfSorted(sorted, key);
  }

  /** Of the knowable rows of the key, this one has the highest sequence. */
  ghost predicate HighestKnowable(r: FundamentalValue, table: seq<FundamentalValue>, key: SeriesKey, asOf: Instant) {
    && r in table && r.key == key && r.availableAt <= asOf
    && forall o :: o in table && o.key == key && o.availableAt <= asOf ==> o.sequence <= r.sequence
  }

  /** A key is answered exactly when some row of it is knowable, and then by the highest revision. */
  lemma AnswerIsHighestKnowable(table: seq<FundamentalValue>, key: SeriesKey, asOf: Instant)
    ensures Answer(table, key, asOf).None? <==> forall r :: r in table && r.key == key ==> asOf < r.availableAt
    ensures Answer(table, key, asOf).Some? ==> HighestKnowable(Answer(table, key, asOf).value, table, key, asOf)
  {
    var s := RowsOf(SortBy(Knowable(table, asOf), SequenceLeq), key);
    KnowableRows(table, key, asOf);
    hide RowsOf;
    hide SortBy;
    hide Knowable;
    forall r | r in s
      ensures r.sequence <= s[|s| - 1].sequence
    {
      var i :| 0 <= i < |s| && s[i] == r;
      assert i == |s| - 1 || SequenceLeq(s[i], s[|s| - 1]);
    }
    if s != [] {
      assert s[|s| - 1] in s;
    }
  }

  /** How many rows at the head of a series are available by `asOf`. */
  function AvailableCount(s: seq<FundamentalValue>, asOf: Instant): (n: nat)
    ensures n <= |s|
  {
    if s == [] || asOf < s[0].availableAt then 0 else 1 + AvailableCount(s[1..], asOf)
  }

  lemma {:induction false} AvailableIsPrefix(s: seq<FundamentalValue>, asOf: Instant)
    requires forall i, j :: 0 <= i < j < |s| ==> s[i].availableAt < s[j].availableAt
    ensures forall i :: 0 <= i < |s| ==> (s[i].availableAt <= asOf <==> i < AvailableCount(s, asOf))
  {
    if s != [] && s[0].availableAt <= asOf {
      AvailableIsPrefix(s[1..], asOf);
      forall i | 0 <= i < |s|
        ensures s[i].availableAt <= asOf <==> i < AvailableCount(s, asOf)
      {
        if i > 0 {
          assert s[i] == s[1..][i - 1];
        }
      }
    }
  }

  /** The rows of a series that are knowable at an instant are its first ones, and the last of those
      is the answer, so nothing available later is ever consulted or skipped over. */
  lemma AnswerIsLastOfPrefix(table: seq<FundamentalValue>, key: SeriesKey, asOf: Instant)
    requires WellSequenced(SeriesFor(table, key))
    ensures var s := SeriesFor(table, key);
            var n := AvailableCount(s, asOf);
            && (forall i :: 0 <= i < |s| ==> (s[i].availableAt <= asOf <==> i < n))
            && Answer(table, key, asOf) == if n == 0 then None else Some(s[n - 1])
  {
    var s := SeriesFor(table, key);
    var n := AvailableCount(s, asOf);
    AvailableIsPrefix(s, asOf);
    SeriesMembers(table, key);
    AnswerIsHighestKnowable(table, key, asOf);
    var a := Answer(table, key, asOf);
    hide Answer;
    hide SeriesFor;
    hide AvailableCount;
    if n > 0 {
      assert s[n - 1] in s;
      assert a.Some?;
      var i :| 0 <= i < |s| && s[i] == a.value;
      assert s[n - 1].sequence <= a.value.sequence;
      assert i == n - 1;
    }
  }

  lemma {:induction false} LaterSeesMore(s: seq<FundamentalValue>, t1: Instant, t2: Instant)
    requires t1 <= t2
    ensures AvailableCount(s, t1) <= AvailableCount(s, t2)
  {
    if s != [] && s[0].availableAt <= t1 {
      LaterSeesMore(s[1..], t1, t2);
    }
  }

  /** As knowledge time advances an answer never disappears and never goes back, in its revision or in
      when it became available. */
  lemma AnswersNeverGoBack(table: seq<FundamentalValue>, key: SeriesKey, t1: Instant, t2: Instant)
    requires WellSequenced(SeriesFor(table, key)) && t1 <= t2 && Answer(table, key, t1).Some?
    ensures Answer(table, key, t2).Some?
    ensures Answer(table, key, t1).value.sequence <= Answer(table, key, t2).value.sequence
    ensures Answer(table, key, t1).value.availableAt <= Answer(table, key, t2).value.availableAt
  {
    var s := SeriesFor(table, key);
    AnswerIsLastOfPrefix(table, key, t1);
    AnswerIsLastOfPrefix(table, key, t2);
    LaterSeesMore(s, t1, t2);
    var n1, n2 := AvailableCount(s, t1), AvailableCount(s, t2);
    assert n1 == n2 || s[n1 - 1].availableAt < s[n2 - 1].availableAt;
  }

  // ----- what a batch leaves of earlier answers

  /** A batch only extends a series, with rows available strictly after its latest row. */
  lemma {:induction false} BatchExtends(table: seq<FundamentalValue>, incoming: seq<FundamentalValue>, key: SeriesKey)
    requires WellSequencedTable(table) && Appended(table, incoming).Success?
    ensures var s, t := SeriesFor(table, key), SeriesFor(table + Appended(table, incoming).value, key);
            |s| <= |t| && t[..|s|] == s
    decreases |incoming|
  {
    hide SeriesFor;
    hide Appended;
    hide AppendedRow;
    hide ContiguousTable;
    hide WellSequencedTable;
    if incoming == [] {
      NoBatch(table);
    } else {
      WellSequencedIsChecked(table);
      var a, next := FirstOfBatch(table, incoming);
      BatchExtends(next, incoming[1..], key);
      var s, m, t := SeriesFor(table, key), SeriesFor(next, key), SeriesFor(next + Appended(next, incoming[1..]).value, key);
      assert t[..|s|] == t[..|m|][..|s|];
    }
  }

  lemma {:induction false} CountOfExtension(s: seq<FundamentalValue>, t: seq<FundamentalValue>, asOf: Instant)
    requires |s| <= |t| && t[..|s|] == s && forall i :: |s| <= i < |t| ==> asOf < t[i].availableAt
    ensures AvailableCount(t, asOf) == AvailableCount(s, asOf)
  {
    if s != [] {
      assert t[0] == t[..|s|][0];
      assert t[1..][..|s[1..]|] == t[..|s|][1..];
      CountOfExtension(s[1..], t[1..], asOf);
    }
  }

  /** Restatements are never retroactively visible: up to the instant the latest known revision became
      available, every answer is what it was before the batch. */
  lemma RestatementsAreNeverRetroactive(table: seq<FundamentalValue>, incoming: seq<FundamentalValue>, key: SeriesKey, asOf: Instant)
    requires WellSequencedTable(table) && Appended(table, incoming).Success?
    requires var s := SeriesFor(table, key); s != [] && asOf <= s[|s| - 1].availableAt
    ensures Answer(table + Appended(table, incoming).value, key, asOf) == Answer(table, key, asOf)
  {
    var next := table + Appended(table, incoming).value;
    var s, t := SeriesFor(table, key), SeriesFor(next, key);
    WellSequencedIsChecked(table);
    BatchKeepsSequences(table, incoming);
    BatchExtends(table, incoming, key);
    assert WellSequenced(s) && WellSequenced(t);
    forall i | |s| <= i < |t|
      ensures asOf < t[i].availableAt
    {
      assert t[|s| - 1] == t[..|s|][|s| - 1];
    }
    CountOfExtension(s, t, asOf);
    AnswerIsLastOfPrefix(table, key, asOf);
    AnswerIsLastOfPrefix(next, key, asOf);
    var n := AvailableCount(s, asOf);
    assert n > 0 ==> t[n - 1] == t[..|s|][n - 1];
  }

  // ----- where rows come from, and which batches are accepted

  /** The row records what the observation says: its key, currency, value and availability. */
  predicate RecordsObservation(r: FundamentalValue, o: FundamentalValue) {
    r.key == o.key && r.currency == o.currency && r.value == o.value && r.availableAt == o.availableAt
  }

  /** Every stored row records an observation of the batch, available when that observation was. */
  lemma {:induction false} RowsRecordObservations(table: seq<FundamentalValue>, incoming: seq<FundamentalValue>, r: FundamentalValue)
    returns (o: FundamentalValue)
    requires Appended(table, incoming).Success? && r in Appended(table, incoming).value
    ensures o in incoming && RecordsObservation(r, o)
    decreases |incoming|
  {
    hide SeriesFor;
    var first := AppendedRow(SeriesFor(table, incoming[0].key), incoming[0]).value;
    if r in first {
      o := incoming[0];
    } else {
      o := RowsRecordObservations(table + first, incoming[1..], r);
    }
  }

  /** Two contiguous tables with the same knowable rows of a key answer alike. */
  lemma AnswerFromKnowable(a: seq<FundamentalValue>, b: seq<FundamentalValue>, key: SeriesKey, asOf: Instant)
    requires ContiguousTable(b) && forall r :: r in a ==> r in b
    requires forall r :: r in b && r.key == key && r.availableAt <= asOf ==> r in a
    ensures Answer(a, key, asOf) == Answer(b, key, asOf)
  {
    AnswerIsHighestKnowable(a, key, asOf);
    AnswerIsHighestKnowable(b, key, asOf);
    hide Answer;
    if Answer(a, key, asOf).Some? && Answer(b, key, asOf).Some? {
      var x, y := Answer(a, key, asOf).value, Answer(b, key, asOf).value;
      assert x in b && y in a && x.sequence == y.sequence;
      OneRowPerSequence(b, x, y);
    }
  }

  lemma OneRowPerSequence(table: seq<FundamentalValue>, x: FundamentalValue, y: FundamentalValue)
    requires ContiguousTable(table) && x in table && y in table && x.key == y.key && x.sequence == y.sequence
    ensures x == y
  {
    var s := SeriesFor(table, x.key);
    SeriesMembers(table, x.key);
    assert Contiguous(s);
    hide SeriesFor;
    var i :| 0 <= i < |s| && s[i] == x;
    var j :| 0 <= j < |s| && s[j] == y;
  }

  /** A batch whose observations of a key all become available after an instant changes no answer for the
      key at that instant, whether or not anything was known of it before. */
  lemma LaterObservationsAreUnseen(table: seq<FundamentalValue>, incoming: seq<FundamentalValue>, key: SeriesKey, asOf: Instant)
    requires ContiguousTable(table) && Appended(table, incoming).Success?
    requires forall o :: o in incoming && o.key == key ==> asOf < o.availableAt
    ensures Answer(table + Appended(table, incoming).value, key, asOf) == Answer(table, key, asOf)
  {
    var rows := Appended(table, incoming).value;
    BatchKeepsSequences(table, incoming);
    hide Appended;
    hide ContiguousTable;
    forall r | r in table + rows && r.key == key && r.availableAt <= asOf
      ensures r in table
    {
      if r in rows {
        var o := RowsRecordObservations(table, incoming, r);
      }
    }
    AnswerFromKnowable(table, table + rows, key, asOf);
  }

  datatype Standing = Standing(currency: string, value: real, availableAt: Instant)

  /** What a series stands at. */
  function StandingOf(s: seq<FundamentalValue>): Option<Standing> {
    if s == [] then None else Some(Standing(s[|s| - 1].currency, s[|s| - 1].value, s[|s| - 1].availableAt))
  }

  /** What a key stands at after some observations: a repetition of the value leaves it, anything else
      replaces it. */
  function After(before: Option<Standing>, observations: seq<FundamentalValue>, key: SeriesKey): Option<Standing> {
    if observations == [] then before
    else
      var past := After(before, observations[..|observations| - 1], key);
      var o := observations[|observations| - 1];
      if o.key != key || (past.Some? && past.value.value == o.value) then past
      else Some(Standing(o.currency, o.value, o.availableAt))
  }

  /** An observation is acceptable on a standing when it is the first, or in the same currency and either
      a repetition or available strictly later. */
  predicate AcceptableOn(past: Option<Standing>, o: FundamentalValue) {
    past.Some? ==> past.value.currency == o.currency && (past.value.value == o.value || past.value.availableAt < o.availableAt)
  }

  ghost predicate EachAcceptable(table: seq<FundamentalValue>, incoming: seq<FundamentalValue>) {
    forall i :: 0 <= i < |incoming| ==>
      AcceptableOn(After(StandingOf(SeriesFor(table, incoming[i].key)), incoming[..i], incoming[i].key), incoming[i])
  }

  lemma {:induction false} AfterFirst(before: Option<Standing>, observations: seq<FundamentalValue>, key: SeriesKey)
    requires observations != []
    ensures After(before, observations, key) == After(After(before, observations[..1], key), observations[1..], key)
    decreases |observations|
  {
    if |observations| == 1 {
      assert observations[..1] == observations;
    } else {
      var front := observations[..|observations| - 1];
      AfterFirst(before, front, key);
      assert front[..1] == observations[..1];
      assert front[1..] == observations[1..][..|observations[1..]| - 1];
    }
  }

  /** Storing an acceptable observation brings its key to the standing it implies, and leaves the others. */
  lemma StandingAfterOne(table: seq<FundamentalValue>, o: FundamentalValue, key: SeriesKey)
    requires ContiguousTable(table)
    ensures AppendedRow(SeriesFor(table, o.key), o).Success? <==> AcceptableOn(StandingOf(SeriesFor(table, o.key)), o)
    ensures AppendedRow(SeriesFor(table, o.key), o).Success? ==>
              StandingOf(SeriesFor(table + AppendedRow(SeriesFor(table, o.key), o).value, key))
              == After(StandingOf(SeriesFor(table, key)), [o], key)
  {
    hide SeriesFor;
    assert [o][..0] == [];
    assert After(StandingOf(SeriesFor(table, key)), [], key) == StandingOf(SeriesFor(table, key));
    if AppendedRow(SeriesFor(table, o.key), o).Success? {
      OneAppended(table, o);
      var a := AppendedRow(SeriesFor(table, o.key), o).value;
      assert SeriesFor(table + a, key) == if key == o.key then SeriesFor(table, key) + a else SeriesFor(table, key);
    }
  }

  /** A batch is accepted exactly when each observation in turn is the first of its key, or in the key's
      currency and either a repetition of the standing value or available strictly after it. */
  lemma {:induction false} AcceptedExactlyWhen(table: seq<FundamentalValue>, incoming: seq<FundamentalValue>)
    requires ContiguousTable(table)
    ensures Appended(table, incoming).Success? <==> EachAcceptable(table, incoming)
    decreases |incoming|
  {
    if incoming != [] {
      var o := incoming[0];
      StandingAfterOne(table, o, o.key);
      UnfoldAppended(table, incoming, 0);
      assert incoming[0..] == incoming && incoming[..0] == [];
      var first := AppendedRow(SeriesFor(table, o.key), o);
      assert After(StandingOf(SeriesFor(table, o.key)), incoming[..0], o.key) == StandingOf(SeriesFor(table, o.key));
      if first.Failure? {
        assert !AcceptableOn(After(StandingOf(SeriesFor(table, o.key)), incoming[..0], o.key), incoming[0]);
      } else {
        var next := table + first.value;
        OneKeeps(table, o);
        AcceptedExactlyWhen(next, incoming[1..]);
        AcceptableLater(table, incoming, next);
      }
    }
  }

  lemma AcceptableLater(table: seq<FundamentalValue>, incoming: seq<FundamentalValue>, next: seq<FundamentalValue>)
    requires ContiguousTable(table) && incoming != [] && AppendedRow(SeriesFor(table, incoming[0].key), incoming[0]).Success?
    requires next == table + AppendedRow(SeriesFor(table, incoming[0].key), incoming[0]).value
    ensures EachAcceptable(table, incoming) <==> EachAcceptable(next, incoming[1..])
  {
    hide SeriesFor;
    var rest := incoming[1..];
    forall i | 0 < i < |incoming|
      ensures After(StandingOf(SeriesFor(table, incoming[i].key)), incoming[..i], incoming[i].key)
           == After(StandingOf(SeriesFor(next, rest[i - 1].key)), rest[..i - 1], rest[i - 1].key)
    {
      var key := incoming[i].key;
      AfterFirst(StandingOf(SeriesFor(table, key)), incoming[..i], key);
      assert incoming[..i][..1] == [incoming[0]] && incoming[..i][1..] == rest[..i - 1];
      StandingAfterOne(table, incoming[0], key);
    }
    StandingAfterOne(table, incoming[0], incoming[0].key);
    assert incoming[..0] == [];
    hide After;
    hide AcceptableOn;
    hide AppendedRow;
    if EachAcceptable(next, rest) {
      forall i | 0 <= i < |incoming|
        ensures AcceptableOn(After(StandingOf(SeriesFor(table, incoming[i].key)), incoming[..i], incoming[i].key), incoming[i])
      {
        if i > 0 {
          assert AcceptableOn(After(StandingOf(SeriesFor(next, rest[i - 1].key)), rest[..i - 1], rest[i - 1].key), rest[i - 1]);
        }
      }
    }
    if EachAcceptable(table, incoming) {
      forall j | 0 <= j < |rest|
        ensures AcceptableOn(After(StandingOf(SeriesFor(next, rest[j].key)), rest[..j], rest[j].key), rest[j])
      {
        assert AcceptableOn(After(StandingOf(SeriesFor(table, incoming[j + 1].key)), incoming[..j + 1], incoming[j + 1].key), incoming[j + 1]);
      }
    }
  }

  // ----- classifying the same batch again

  predicate SameKeySameValue(a: FundamentalValue, b: FundamentalValue) {
    a.key == b.key ==> a.value == b.value
  }

  /** No key is observed with two values in one batch. */
  ghost predicate OneValuePerKey(incoming: seq<FundamentalValue>) {
    forall a, b :: a in incoming && b in incoming ==> SameKeySameValue(a, b)
  }

  /** The latest row of the key carries this value in this currency. */
  predicate Latest(table: seq<FundamentalValue>, o: FundamentalValue) {
    var s := SeriesFor(table, o.key);
    s != [] && s[|s| - 1].value == o.value && s[|s| - 1].currency == o.currency
  }

  lemma {:induction false} NothingToAppend(table: seq<FundamentalValue>, incoming: seq<FundamentalValue>)
    requires ContiguousTable(table)
    ensures Appended(table, incoming) == Success([]) <==> forall o :: o in incoming ==> Latest(table, o)
    decreases |incoming|
  {
    hide SeriesFor;
    if incoming != [] {
      var o := incoming[0];
      assert incoming == [o] + incoming[1..];
      var a := AppendedRow(SeriesFor(table, o.key), o);
      if a == Success([]) {
        assert table + [] == table;
        NothingToAppend(table, incoming[1..]);
        assert Latest(table, o);
        PrefixedByNothing(Appended(table, incoming[1..]));
      } else {
        assert !Latest(table, o) && o in incoming;
        assert Appended(table, incoming).Success? ==> Appended(table, incoming).value != [];
      }
    }
  }

  ghost predicate LastObserved(incoming: seq<FundamentalValue>, i: int) {
    0 <= i < |incoming| && forall j :: i < j < |incoming| ==> incoming[j].key != incoming[i].key
  }

  lemma AppendedIsLatest(table: seq<FundamentalValue>, o: FundamentalValue)
    requires ContiguousTable(table) && AppendedRow(SeriesFor(table, o.key), o).Success?
    ensures Latest(table + AppendedRow(SeriesFor(table, o.key), o).value, o)
  {
    hide SeriesFor;
    OneAppended(table, o);
    hide ContiguousTable;
  }

  lemma {:induction false} UnobservedKeyUnchanged(table: seq<FundamentalValue>, incoming: seq<FundamentalValue>, key: SeriesKey)
    requires ContiguousTable(table) && Appended(table, incoming).Success?
    requires forall o :: o in incoming ==> o.key != key
    ensures SeriesFor(table + Appended(table, incoming).value, key) == SeriesFor(table, key)
    decreases |incoming|
  {
    hide SeriesFor;
    hide Appended;
    hide AppendedRow;
    hide ContiguousTable;
    hide WellSequencedTable;
    if incoming == [] {
      NoBatch(table);
    } else {
      var a, next := FirstOfBatch(table, incoming);
      assert incoming[0] in incoming;
      UnobservedKeyUnchanged(next, incoming[1..], key);
    }
  }

  /** After a batch the latest row of a key is what the batch last observed for it. */
  lemma {:induction false} LastObservationIsLatest(table: seq<FundamentalValue>, incoming: seq<FundamentalValue>, i: int)
    requires ContiguousTable(table) && Appended(table, incoming).Success? && LastObserved(incoming, i)
    ensures Latest(table + Appended(table, incoming).value, incoming[i])
    decreases |incoming|
  {
    hide SeriesFor;
    hide Appended;
    hide AppendedRow;
    hide ContiguousTable;
    hide WellSequencedTable;
    var a, next := FirstOfBatch(table, incoming);
    if i == 0 {
      AppendedIsLatest(table, incoming[0]);
      UnobservedKeyUnchanged(next, incoming[1..], incoming[0].key);
    } else {
      assert incoming[1..][i - 1] == incoming[i];
      LastObservationIsLatest(next, incoming[1..], i - 1);
    }
  }

  lemma {:induction false} LastOfKey(incoming: seq<FundamentalValue>, o: FundamentalValue) returns (i: int)
    requires o in incoming
    ensures LastObserved(incoming, i) && incoming[i].key == o.key
    decreases |incoming|
  {
    var front, z := incoming[..|incoming| - 1], incoming[|incoming| - 1];
    assert incoming == front + [z];
    if z.key == o.key {
      i := |incoming| - 1;
    } else {
      i := LastOfKey(front, o);
    }
  }

  /** All observations of one key in an accepted batch share a currency: the latest row's. */
  lemma {:induction false} AcceptedCurrency(table: seq<FundamentalValue>, incoming: seq<FundamentalValue>, o: FundamentalValue)
    requires ContiguousTable(table) && Appended(table, incoming).Success? && o in incoming
    ensures var s := SeriesFor(table + Appended(table, incoming).value, o.key);
            s != [] && s[|s| - 1].currency == o.currency
    decreases |incoming|
  {
    hide SeriesFor;
    hide Appended;
    hide AppendedRow;
    hide ContiguousTable;
    hide WellSequencedTable;
    var a, next := FirstOfBatch(table, incoming);
    var p := incoming[0];
    if o in incoming[1..] {
      AcceptedCurrency(next, incoming[1..], o);
    } else {
      assert o == p;
      AppendedIsLatest(table, p);
      if q :| q in incoming[1..] && q.key == o.key {
        AcceptedCurrency(next, incoming[1..], q);
        NextCurrency(next, incoming[1..], q);
      } else {
        UnobservedKeyUnchanged(next, incoming[1..], o.key);
      }
    }
  }

  /** An accepted observation of a known series is in the series' currency. */
  lemma {:induction false} NextCurrency(table: seq<FundamentalValue>, incoming: seq<FundamentalValue>, q: FundamentalValue)
    requires ContiguousTable(table) && Appended(table, incoming).Success? && q in incoming && SeriesFor(table, q.key) != []
    ensures var s := SeriesFor(table, q.key); s[|s| - 1].currency == q.currency
    decreases |incoming|
  {
    hide SeriesFor;
    hide Appended;
    hide ContiguousTable;
    hide WellSequencedTable;
    var p := incoming[0];
    var a, next := FirstOfBatch(table, incoming);
    if p != q {
      assert q in incoming[1..];
      NextCurrency(next, incoming[1..], q);
    }
  }

  /** Classifying an accepted batch a second time succeeds and appends nothing exactly when the batch
      never observes one key with two values. */
  lemma ReclassifyingAppendsNothingExactlyWhen(table: seq<FundamentalValue>, incoming: seq<FundamentalValue>)
    requires ContiguousTable(table) && Appended(table, incoming).Success?
    ensures Appended(table + Appended(table, incoming).value, incoming) == Success([]) <==> OneValuePerKey(incoming)
  {
    var next := table + Appended(table, incoming).value;
    BatchKeepsSequences(table, incoming);
    NothingToAppend(next, incoming);
    hide Appended;
    if OneValuePerKey(incoming) {
      forall o | o in incoming
        ensures Latest(next, o)
      {
        var i := LastOfKey(incoming, o);
        LastObservationIsLatest(table, incoming, i);
        AcceptedCurrency(table, incoming, o);
        assert SameKeySameValue(o, incoming[i]);
      }
    }
    if forall o :: o in incoming ==> Latest(next, o) {
      forall a, b | a in incoming && b in incoming
        ensures SameKeySameValue(a, b)
      {
        assert Latest(next, a) && Latest(next, b);
      }
    }
  }

  // ----- the algorithm: a dictionary of series

  type ByKey = map<SeriesKey, seq<FundamentalValue>>

  function Lookup(m: ByKey, key: SeriesKey): seq<FundamentalValue> {
    if key in m then m[key] else []
  }

  method CheckRevisionSeries(s: seq<FundamentalValue>) returns (ok: bool)
    ensures ok <==> CheckedSeries(s)
  {
    for i := 0 to |s|
      invariant forall j :: 0 <= j < i ==> s[j].sequence == j
    {
      if s[i].sequence != i {
        return false;
      }
    }
    if |s| < 2 {
      return true;
    }
    for i := 2 to |s|
      invariant forall j :: 1 <= j < i - 1 ==> RevisedBefore(s[j], s[j + 1])
    {
      if !RevisedBefore(s[i - 1], s[i]) {
        return false;
      }
    }
    return true;
  }

  method GroupAndCheck(existing: seq<FundamentalValue>) returns (byKey: ByKey, ok: bool)
    ensures ok <==> Acceptable(existing)
    ensures ok ==> Holds(byKey, existing)
  {
    byKey := map[];
    for i := 0 to |existing|
      invariant forall key :: Lookup(byKey, key) == RowsOf(existing[..i], key)
    {
      var record := existing[i];
      assert existing[..i + 1][..i] == existing[..i];
      byKey := byKey[record.key := Lookup(byKey, record.key) + [record]];
    }
    assert existing[..|existing|] == existing;
    var pending := byKey.Keys;
    while pending != {}
      invariant pending <= byKey.Keys
      invariant forall key :: key in pending ==> Lookup(byKey, key) == RowsOf(existing, key)
      invariant forall key :: key !in pending ==> Lookup(byKey, key) == SeriesFor(existing, key) && CheckedSeries(SeriesFor(existing, key))
    {
      var key :| key in pending;
      var sorted := SortBy(byKey[key], SequenceLeq);
      var fine := CheckRevisionSeries(sorted);
      if !fine {
        assert !CheckedSeries(SeriesFor(existing, key));
        return byKey, false;
      }
      byKey := byKey[key := sorted];
      pending := pending - {key};
    }
    ok := true;
    forall key
      ensures Contiguous(SeriesFor(existing, key))
    {
      assert CheckedSeries(SeriesFor(existing, key));
    }
  }

  ghost predicate Holds(byKey: ByKey, table: seq<FundamentalValue>) {
    ContiguousTable(table) && forall key :: Lookup(byKey, key) == SeriesFor(table, key)
  }

  lemma HoldsAfter(byKey: ByKey, table: seq<FundamentalValue>, o: FundamentalValue, after: ByKey)
    requires Holds(byKey, table)
    requires AppendedRow(Lookup(byKey, o.key), o).Success?
    requires var rows := AppendedRow(Lookup(byKey, o.key), o).value;
             after == if rows == [] then byKey else byKey[o.key := Lookup(byKey, o.key) + rows]
    ensures AppendedRow(SeriesFor(table, o.key), o) == AppendedRow(Lookup(byKey, o.key), o)
    ensures Holds(after, table + AppendedRow(SeriesFor(table, o.key), o).value)
  {
    hide SeriesFor;
    assert Lookup(byKey, o.key) == SeriesFor(table, o.key);
    OneKeeps(table, o);
    OneAppended(table, o);
    var rows := AppendedRow(SeriesFor(table, o.key), o).value;
    forall key
      ensures Lookup(after, key) == SeriesFor(table + rows, key)
    {
      assert Lookup(byKey, key) == SeriesFor(table, key);
    }
  }

  /** One observation against the dictionary: a new fact, a repetition, a revision or a refusal. */
  method ClassifyOne(byKey: ByKey, o: FundamentalValue, ghost table: seq<FundamentalValue>)
    returns (rows: Result<seq<FundamentalValue>, RevisionError>, after: ByKey)
    requires Holds(byKey, table)
    ensures rows == AppendedRow(SeriesFor(table, o.key), o)
    ensures rows.Success? ==> Holds(after, table + rows.value) && |rows.value| <= 1
  {
    hide SeriesFor;
    hide ContiguousTable;
    var series := Lookup(byKey, o.key);
    after := byKey;
    if series == [] {
      rows := Success([FundamentalValue(o.key, o.currency, o.value, o.availableAt, None, 0)]);
      after := byKey[o.key := series + rows.value];
    } else {
      var latest := series[|series| - 1];
      if latest.currency != o.currency {
        rows := Failure(CurrencyChanged);
      } else if latest.value == o.value {
        rows := Success([]);
      } else if o.availableAt <= latest.availableAt {
        rows := Failure(OutOfOrder);
      } else {
        rows := Success([FundamentalValue(o.key, o.currency, o.value, o.availableAt, Some(o.availableAt), latest.sequence + 1)]);
        after := byKey[o.key := series + rows.value];
      }
    }
    assert rows == AppendedRow(series, o);
    if rows.Success? {
      HoldsAfter(byKey, table, o, after);
    }
  }

  /** The dictionary-based classification computes the definition, and its counters account for every
      observation and every appended row. */
  method ClassifyObservations(existing: seq<FundamentalValue>, incoming: seq<FundamentalValue>)
    returns (r: Result<Classification, RevisionError>)
    ensures !Acceptable(existing) ==> r == Failure(BrokenSeries)
    ensures Acceptable(existing) ==> (r.Success? <==> Appended(existing, incoming).Success?)
    ensures Acceptable(existing) && r.Failure? ==> r.error == Appended(existing, incoming).error
    ensures r.Success? ==> r.value.toAppend == Appended(existing, incoming).value
    ensures r.Success? ==> r.value.repeated + |r.value.toAppend| == |incoming|
                           && r.value.newFacts + r.value.revisions == |r.value.toAppend|
                           && r.value.newFacts == Originals(r.value.toAppend)
  {
    hide *;
    var byKey, ok := GroupAndCheck(existing);
    if !ok {
      return Failure(BrokenSeries);
    }
    var toAppend: seq<FundamentalValue> := [];
    var repeated, newFacts, revisions := 0, 0, 0;
    NothingYet(existing, incoming);
    for i := 0 to |incoming|
      invariant Holds(byKey, existing + toAppend)
      invariant Appended(existing, incoming) == Prefixed(toAppend, Appended(existing + toAppend, incoming[i..]))
      invariant repeated + |toAppend| == i && newFacts + revisions == |toAppend|
      invariant newFacts == Originals(toAppend)
    {
      ghost var table := existing + toAppend;
      UnfoldAppended(table, incoming, i);
      var rows, after := ClassifyOne(byKey, incoming[i], table);
      if rows.Failure? {
        PrefixedFailure(toAppend, rows);
        return Failure(rows.error);
      }
      PrefixedTwice(toAppend, rows.value, Appended(table + rows.value, incoming[i + 1..]));
      assert table + rows.value == existing + (toAppend + rows.value);
      byKey := after;
      if rows.value == [] {
        repeated := repeated + 1;
        assert toAppend + rows.value == toAppend;
      } else {
        OneMoreRow(toAppend, rows.value[0]);
        assert rows.value == [rows.value[0]];
        if rows.value[0].sequence == 0 {
          newFacts := newFacts + 1;
        } else {
          revisions := revisions + 1;
        }
        toAppend := toAppend + rows.value;
      }
    }
    NothingLeft(toAppend, existing + toAppend, incoming);
    r := Success(Classification(toAppend, repeated, newFacts, revisions));
  }

  function Prefixed(rows: seq<FundamentalValue>, rest: Result<seq<FundamentalValue>, RevisionError>): Result<seq<FundamentalValue>, RevisionError> {
    if rest.Failure? then rest else Success(rows + rest.value)
  }

  lemma PrefixedByNothing(r: Result<seq<FundamentalValue>, RevisionError>)
    ensures Prefixed([], r) == r
  {
    assert r.Success? ==> [] + r.value == r.value;
  }

  lemma NothingYet(existing: seq<FundamentalValue>, incoming: seq<FundamentalValue>)
    ensures existing + [] == existing && Originals([]) == 0
    ensures Appended(existing, incoming) == Prefixed([], Appended(existing + [], incoming[0..]))
  {
    assert existing + [] == existing && incoming[0..] == incoming;
    PrefixedByNothing(Appended(existing, incoming));
  }

  lemma NothingLeft(rows: seq<FundamentalValue>, table: seq<FundamentalValue>, incoming: seq<FundamentalValue>)
    ensures Prefixed(rows, Appended(table, incoming[|incoming|..])) == Success(rows)
  {
    assert incoming[|incoming|..] == [] && rows + [] == rows;
  }

  lemma PrefixedFailure(a: seq<FundamentalValue>, r: Result<seq<FundamentalValue>, RevisionError>)
    requires r.Failure?
    ensures Prefixed(a, r) == r
  {
  }

  lemma PrefixedTwice(a: seq<FundamentalValue>, b: seq<FundamentalValue>, r: Result<seq<FundamentalValue>, RevisionError>)
    ensures Prefixed(a, Prefixed(b, r)) == Prefixed(a + b, r)
  {
    assert r.Success? ==> a + (b + r.value) == a + b + r.value;
  }

  lemma UnfoldAppended(table: seq<FundamentalValue>, incoming: seq<FundamentalValue>, i: int)
    requires 0 <= i < |incoming|
    ensures var first := AppendedRow(SeriesFor(table, incoming[i].key), incoming[i]);
            Appended(table, incoming[i..]) ==
            if first.Failure? then first else Prefixed(first.value, Appended(table + first.value, incoming[i + 1..]))
  {
    assert incoming[i..][1..] == incoming[i + 1..];
  }

  /** How many rows are original filings. */
  function Originals(rows: seq<FundamentalValue>): (n: nat)
  {
    if rows == [] then 0 else Originals(rows[..|rows| - 1]) + (if rows[|rows| - 1].sequence == 0 then 1 else 0)
  }

  lemma OneMoreRow(rows: seq<FundamentalValue>, r: FundamentalValue)
    ensures Originals(rows + [r]) == Originals(rows) + (if r.sequence == 0 then 1 else 0)
  {
    assert (rows + [r])[..|rows|] == rows;
  }
}
