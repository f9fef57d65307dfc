/** The deepest decline of a value curve,
    found by a running peak and by drawdown episodes. */
module Drawdown {
  import opened Domain
  import opened Sorting

  function Over(v: real, peak: real): real
    requires peak != 0.0
  {
    v / peak
  }

  lemma OverOrders(v: real, w: real, p: real, q: real)
    requires 0.0 < v <= w && 0.0 < q <= p
    ensures Over(v, p) <= Over(w, q)
    ensures v < w || q < p ==> Over(v, p) < Over(w, q)
    ensures Over(v, v) == 1.0
  {
    Divided(v, p);
    Divided(w, q);
    Divided(v, v);
    ProductOrders(Over(v, p), p, Over(w, q), q);
    Cancels(Over(v, v), v);
  }

  lemma ProductOrders(x: real, p: real, y: real, q: real)
    requires x > 0.0 && y > 0.0 && 0.0 < q <= p && x * p <= y * q
    ensures x <= y && (x * p < y * q || q < p ==> x < y)
  {
    ProductLess(x, y, p);
    ProductLess(p, q, y);
    if x == y {
      ProductLess(p, q, x);
    }
  }

  lemma ProductLess(x: real, y: real, p: real)
    requires p > 0.0
    ensures x > y ==> x * p > y * p
    ensures x >= y ==> x * p >= y * p && p * x >= p * y
  {
    assert x > y ==> (x - y) * p > 0.0;
  }

  lemma Cancels(x: real, v: real)
    requires v > 0.0 && x * v == v
    ensures x == 1.0
  {
    assert (x - 1.0) * v == 0.0;
  }

  lemma Divided(v: real, p: real)
    requires 0.0 < v && 0.0 < p
    ensures Over(v, p) * p == v && Over(v, p) > 0.0
  {
  }

  /** The change from position `i` to position `j`, as a fraction. */
  function Change(values: seq<Positive>, i: int, j: int): real
    requires 0 <= i <= j < |values|
  {
    Over(values[j], values[i]) - 1.0
  }

  ghost predicate Reached(values: seq<Positive>, j: int, depth: real)
    requires 0 <= j < |values|
  {
    exists i :: 0 <= i <= j && Change(values, i, j) == depth
  }

  /** No change within the first `n` values is below `depth`. */
  ghost predicate Bounds(values: seq<Positive>, n: int, depth: real)
    requires n <= |values|
  {
    forall i, j :: 0 <= i <= j < n ==> depth <= Change(values, i, j)
  }

  ghost predicate StrictlyBounds(values: seq<Positive>, n: int, depth: real)
    requires n <= |values|
  {
    forall i, j :: 0 <= i <= j < n ==> depth < Change(values, i, j)
  }

  /** `depth` is the least change between any earlier and any later value of the first `n`, and
      `trough` the first position that reaches it. */
  ghost predicate Deepest(values: seq<Positive>, n: int, depth: real, trough: int)
    requires n <= |values|
  {
    && 0 <= trough < n
    && Bounds(values, n, depth)
    && Reached(values, trough, depth)
    && StrictlyBounds(values, trough, depth)
  }

  /** The deepest decline and its trough are determined by the values. */
  lemma DeepestIsUnique(values: seq<Positive>, n: int, d1: real, t1: int, d2: real, t2: int)
    requires n <= |values| && Deepest(values, n, d1, t1) && Deepest(values, n, d2, t2)
    ensures d1 == d2 && t1 == t2
  {
    var i1 :| 0 <= i1 <= t1 && Change(values, i1, t1) == d1;
    var i2 :| 0 <= i2 <= t2 && Change(values, i2, t2) == d2;
    assert d1 <= Change(values, i2, t2) && d2 <= Change(values, i1, t1);
  }

  // ----- the running peak

  ghost predicate IsPeak(values: seq<Positive>, n: int, peak: int) {
    0 <= peak < n <= |values| && forall i :: 0 <= i < n ==> values[i] <= values[peak]
  }

  /** Against the running peak the change to a position is least. */
  lemma PeakIsLeast(values: seq<Positive>, j: int, peak: int, i: int)
    requires IsPeak(values, j + 1, peak) && 0 <= i <= j
    ensures Change(values, peak, j) <= Change(values, i, j) && Change(values, peak, j) <= 0.0
  {
    OverOrders(values[j], values[j], values[peak], values[i]);
    OverOrders(values[j], values[j], values[peak], values[j]);
  }

  lemma NextDeepest(values: seq<Positive>, n: int, depth: real, trough: int, peak: int)
    requires IsPeak(values, n + 1, peak)
    requires if n == 0 then depth == 0.0 && trough == 0 else Deepest(values, n, depth, trough)
    ensures var now := Change(values, peak, n);
            if now < depth then Deepest(values, n + 1, now, n) else Deepest(values, n + 1, depth, trough)
  {
    forall i | 0 <= i <= n
      ensures Change(values, peak, n) <= Change(values, i, n) && Change(values, peak, n) <= 0.0
    {
      PeakIsLeast(values, n, peak, i);
    }
    if n == 0 {
      OverOrders(values[0], values[0], values[0], values[0]);
      assert Change(values, 0, 0) == 0.0;
    }
    if Change(values, peak, n) < depth {
      assert Reached(values, n, Change(values, peak, n));
    }
  }

  datatype Failure = NoValues

  /** The running-peak algorithm finds the least change over all pairs of an earlier and a later
      value, and the first position that reaches it. */
  method MaxDrawdown(values: seq<Positive>) returns (r: Result<(real, nat), Failure>)
    ensures r.Failure? <==> values == []
    ensures r.Success? ==> Deepest(values, |values|, r.value.0, r.value.1)
  {
    if values == [] {
      return Failure(NoValues);
    }
    var peak := values[0];
    ghost var at := 0;
    var worst, trough := 0.0, 0;
    for i := 0 to |values|
      invariant i > 0 ==> IsPeak(values, i, at)
      invariant at < |values| && values[at] == peak && at <= i
      invariant i == 0 ==> worst == 0.0 && trough == 0
      invariant i > 0 ==> Deepest(values, i, worst, trough)
    {
      if values[i] >= peak {
        peak, at := values[i], i;
      }
      assert IsPeak(values, i + 1, at);
      NextDeepest(values, i, worst, trough, at);
      var drawdown := Over(values[i], peak) - 1.0;
      if drawdown < worst {
        worst, trough := drawdown, i;
      }
    }
    r := Success((worst, trough));
  }

  // ----- episodes

  datatype Episode = Episode(peak: nat, trough: nat, recovery: Option<nat>)

  function Until(e: Episode, n: nat): nat {
    if e.recovery.Some? then e.recovery.value else n
  }

  /** The first lowest position strictly between `from` and `to`. */
  ghost predicate FirstLow(values: seq<Positive>, from: int, to: int, low: int) {
    && 0 <= from < low < to <= |values|
    && (forall k :: from < k < to ==> values[low] <= values[k])
    && (forall k :: from < k < low ==> values[low] < values[k])
  }

  /** From a running peak, below it until the curve is back at least at the peak, or to the end. */
  ghost predicate IsEpisode(values: seq<Positive>, n: nat, e: Episode) {
    && n <= |values|
    && IsPeak(values, Until(e, n), e.peak)
    && FirstLow(values, e.peak, Until(e, n), e.trough)
    && (forall k :: e.peak < k < Until(e, n) ==> values[k] < values[e.peak])
    && (e.recovery.Some? ==> e.recovery.value < n && values[e.peak] <= values[e.recovery.value])
  }

  predicate Within(e: Episode, n: nat, j: int) {
    e.peak < j < Until(e, n)
  }

  ghost predicate Declined(values: seq<Positive>, j: int)
    requires 0 <= j < |values|
  {
    exists k :: 0 <= k < j && values[j] < values[k]
  }

  ghost predicate InSome(episodes: seq<Episode>, n: nat, j: int) {
    exists k :: 0 <= k < |episodes| && Within(episodes[k], n, j)
  }

  /** The episodes of the first `n` values: in order, apart, and together every declined position. */
  ghost predicate EpisodesOf(values: seq<Positive>, n: nat, episodes: seq<Episode>) {
    && n <= |values|
    && (forall k :: 0 <= k < |episodes| ==> IsEpisode(values, n, episodes[k]))
    && (forall k, l :: 0 <= k < l < |episodes| ==> Until(episodes[k], n) <= episodes[l].peak)
    && (forall j :: 0 <= j < n && Declined(values, j) ==> InSome(episodes, n, j))
  }

  /** The decline under way since `peak`, if any, after `i` values. */
  ghost predicate Underway(values: seq<Positive>, i: nat, peak: nat, trough: nat, inDrawdown: bool) {
    && IsPeak(values, i, peak)
    && (forall k :: peak < k < i ==> values[k] < values[peak])
    && (inDrawdown <==> peak < i - 1)
    && (inDrawdown ==> FirstLow(values, peak, i, trough))
  }

  /** The finished episodes after `i` values, which hold every declined position up to `peak`. */
  ghost predicate Finished(values: seq<Positive>, i: nat, episodes: seq<Episode>, peak: nat)
    requires i <= |values|
  {
    && (forall k :: 0 <= k < |episodes| ==> episodes[k].recovery.Some? && IsEpisode(values, i, episodes[k])
                                            && episodes[k].recovery.value <= peak)
    && (forall k, l :: 0 <= k < l < |episodes| ==> Until(episodes[k], i) <= episodes[l].peak)
    && (forall j :: 0 <= j < i && Declined(values, j) ==> InSome(episodes, i, j) || peak < j)
  }

  /** The loop's state after `i` values. */
  ghost predicate Scanned(values: seq<Positive>, i: nat, episodes: seq<Episode>, peak: nat, trough: nat, inDrawdown: bool) {
    i <= |values| && Underway(values, i, peak, trough, inDrawdown) && Finished(values, i, episodes, peak)
  }

  lemma EpisodeStays(values: seq<Positive>, n: nat, e: Episode)
    requires IsEpisode(values, n, e) && e.recovery.Some? && n < |values|
    ensures IsEpisode(values, n + 1, e)
  {
  }

  lemma InSomeStays(episodes: seq<Episode>, more: seq<Episode>, n: nat, m: nat, j: int)
    requires InSome(episodes, n, j)
    requires forall k :: 0 <= k < |episodes| ==> episodes[k].recovery.Some?
    ensures InSome(episodes + more, m, j)
  {
    var k :| 0 <= k < |episodes| && Within(episodes[k], n, j);
    assert Within((episodes + more)[k], m, j);
  }

  lemma FirstScanned(values: seq<Positive>)
    requires values != []
    ensures Scanned(values, 1, [], 0, 0, false)
  {
  }

  /** A value at or above the peak ends any decline under way. */
  lemma NewPeak(values: seq<Positive>, i: nat, episodes: seq<Episode>, peak: nat, trough: nat, inDrawdown: bool)
    requires 0 < i < |values| && Scanned(values, i, episodes, peak, trough, inDrawdown) && values[peak] <= values[i]
    ensures Scanned(values, i + 1, if inDrawdown then episodes + [Episode(peak, trough, Some(i))] else episodes, i, trough, false)
  {
    var done := if inDrawdown then [Episode(peak, trough, Some(i))] else [];
    var longer := episodes + done;
    forall k | 0 <= k < |longer|
      ensures longer[k].recovery.Some? && IsEpisode(values, i + 1, longer[k]) && longer[k].recovery.value <= i
    {
      if k < |episodes| {
        EpisodeStays(values, i, episodes[k]);
      }
    }
    forall j | 0 <= j < i + 1 && Declined(values, j)
      ensures InSome(longer, i + 1, j)
    {
      if j < i && InSome(episodes, i, j) {
        InSomeStays(episodes, done, i, i + 1, j);
      } else if j < i {
        assert Within(longer[|episodes|], i + 1, j);
      } else {
        assert false;
      }
    }
    assert inDrawdown || longer == episodes;
  }

  /** A value below the peak starts a decline or continues it. */
  lemma BelowPeak(values: seq<Positive>, i: nat, episodes: seq<Episode>, peak: nat, trough: nat, inDrawdown: bool)
    requires 0 < i < |values| && Scanned(values, i, episodes, peak, trough, inDrawdown) && values[i] < values[peak]
    ensures Scanned(values, i + 1, episodes, peak, if !inDrawdown || values[i] < values[trough] then i else trough, true)
  {
    FinishedStays(values, i, episodes, peak);
    LowerStill(values, i, peak, trough, inDrawdown);
  }

  lemma LowerStill(values: seq<Positive>, i: nat, peak: nat, trough: nat, inDrawdown: bool)
    requires 0 < i < |values| && Underway(values, i, peak, trough, inDrawdown) && values[i] < values[peak]
    ensures Underway(values, i + 1, peak, if !inDrawdown || values[i] < values[trough] then i else trough, true)
  {
  }

  lemma FinishedStays(values: seq<Positive>, i: nat, episodes: seq<Episode>, peak: nat)
    requires peak < i < |values| && Finished(values, i, episodes, peak)
    ensures Finished(values, i + 1, episodes, peak)
  {
    forall k | 0 <= k < |episodes|
      ensures IsEpisode(values, i + 1, episodes[k])
    {
      EpisodeStays(values, i, episodes[k]);
    }
    hide IsEpisode;
    hide Declined;
    forall j | 0 <= j < i + 1 && Declined(values, j)
      ensures InSome(episodes, i + 1, j) || peak < j
    {
      if j < i && InSome(episodes, i, j) {
        InSomeStays(episodes, [], i, i + 1, j);
        assert episodes + [] == episodes;
      }
    }
  }

  /** At the end a decline still under way is an episode without recovery. */
  lemma LastEpisode(values: seq<Positive>, episodes: seq<Episode>, peak: nat, trough: nat, inDrawdown: bool)
    requires Scanned(values, |values|, episodes, peak, trough, inDrawdown)
    ensures EpisodesOf(values, |values|, if inDrawdown then episodes + [Episode(peak, trough, None)] else episodes)
  {
    var n := |values|;
    var open := if inDrawdown then [Episode(peak, trough, None)] else [];
    forall j | 0 <= j < n && Declined(values, j)
      ensures InSome(episodes + open, n, j)
    {
      if InSome(episodes, n, j) {
        InSomeStays(episodes, open, n, n, j);
      } else {
        assert Within((episodes + open)[|episodes|], n, j);
      }
    }
    assert inDrawdown || episodes + open == episodes;
  }

  method FindEpisodes(values: seq<Positive>) returns (episodes: seq<Episode>)
    ensures EpisodesOf(values, |values|, episodes)
  {
    hide *;
    episodes := [];
    var peak, trough: nat := 0, 0;
    var inDrawdown := false;
    for i := 0 to |values|
      invariant i == 0 ==> episodes == [] && peak == 0 && trough == 0 && !inDrawdown
      invariant i > 0 ==> peak < |values| && trough < |values| && Scanned(values, i, episodes, peak, trough, inDrawdown)
    {
      if i == 0 {
        FirstScanned(values);
      } else if values[peak] <= values[i] {
        NewPeak(values, i, episodes, peak, trough, inDrawdown);
      } else {
        BelowPeak(values, i, episodes, peak, trough, inDrawdown);
      }
      if values[i] >= values[peak] {
        if inDrawdown {
          episodes := episodes + [Episode(peak, trough, Some(i))];
          inDrawdown := false;
        }
        peak := i;
      } else {
        if !inDrawdown || values[i] < values[trough] {
          trough := i;
        }
        inDrawdown := true;
      }
    }
    if |values| == 0 {
      NoEpisodes();
    } else {
      LastEpisode(values, episodes, peak, trough, inDrawdown);
    }
    if inDrawdown {
      episodes := episodes + [Episode(peak, trough, None)];
    }
  }

  lemma NoEpisodes()
    ensures EpisodesOf([], 0, [])
  {
  }

  // ----- the deepest episode

  function Depth(values: seq<Positive>, e: Episode): real
    requires e.peak < |values| && e.trough < |values|
  {
    Over(values[e.trough], values[e.peak]) - 1.0
  }

  /** Ratios are compared, out-of-range positions (there are none) counting as no decline. */
  function Ratio(values: seq<Positive>, e: Episode): real {
    if e.peak < |values| && e.trough < |values| then Over(values[e.trough], values[e.peak]) else 1.0
  }

  function ByDepth(values: seq<Positive>): (Episode, Episode) -> bool {
    (a, b) => Ratio(values, a) <= Ratio(values, b)
  }

  /** No change reaches below the episode it falls in. */
  lemma EpisodeBoundsItsDates(values: seq<Positive>, e: Episode, i: int, j: int)
    requires IsEpisode(values, |values|, e) && Within(e, |values|, j) && 0 <= i <= j
    ensures Depth(values, e) <= Change(values, i, j)
    ensures j < e.trough ==> Depth(values, e) < Change(values, i, j)
    ensures Depth(values, e) < 0.0
  {
    hide Over;
    assert values[i] <= values[e.peak];
    OverOrders(values[e.trough], values[j], values[e.peak], values[i]);
    OverOrders(values[e.trough], values[e.peak], values[e.peak], values[e.peak]);
    OverOrders(values[e.peak], values[e.peak], values[e.peak], values[e.peak]);
  }

  lemma UndeclinedChange(values: seq<Positive>, i: int, j: int)
    requires 0 <= i <= j < |values| && !Declined(values, j)
    ensures Change(values, i, j) >= 0.0
  {
    assert i == j || values[i] <= values[j];
    OverOrders(values[i], values[j], values[i], values[i]);
  }

  lemma DeepestAt(values: seq<Positive>, episodes: seq<Episode>, m: nat, i: int, j: int)
    requires EpisodesOf(values, |values|, episodes) && m < |episodes| && 0 <= i <= j < |values|
    requires forall k :: 0 <= k < |episodes| ==> Ratio(values, episodes[m]) <= Ratio(values, episodes[k])
    requires forall k :: 0 <= k < m ==> Ratio(values, episodes[m]) < Ratio(values, episodes[k])
    requires IsEpisode(values, |values|, episodes[m])
    ensures Depth(values, episodes[m]) <= Change(values, i, j)
    ensures j < episodes[m].trough ==> Depth(values, episodes[m]) < Change(values, i, j)
  {
    hide Over;
    var n, e := |values|, episodes[m];
    EpisodeBoundsItsDates(values, e, e.trough, e.trough);
    if Declined(values, j) {
      assert InSome(episodes, n, j);
      var k :| 0 <= k < |episodes| && Within(episodes[k], n, j);
      EpisodeBoundsItsDates(values, episodes[k], i, j);
      assert m < k ==> Until(e, n) <= episodes[k].peak;
    } else {
      UndeclinedChange(values, i, j);
    }
  }

  /** An episode at least as deep as all others, and strictly deeper than those before it, carries the
      deepest decline. */
  lemma DeepestEpisode(values: seq<Positive>, episodes: seq<Episode>, m: nat)
    requires EpisodesOf(values, |values|, episodes) && m < |episodes|
    requires forall k :: 0 <= k < |episodes| ==> Ratio(values, episodes[m]) <= Ratio(values, episodes[k])
    requires forall k :: 0 <= k < m ==> Ratio(values, episodes[m]) < Ratio(values, episodes[k])
    ensures Deepest(values, |values|, Depth(values, episodes[m]), episodes[m].trough)
  {
    var e := episodes[m];
    assert IsEpisode(values, |values|, e);
    assert Change(values, e.peak, e.trough) == Depth(values, e);
    forall i, j | 0 <= i <= j < |values|
      ensures Depth(values, e) <= Change(values, i, j) && (j < e.trough ==> Depth(values, e) < Change(values, i, j))
    {
      DeepestAt(values, episodes, m, i, j);
    }
    hide Change;
    hide Depth;
  }

  /** What the table of episodes shows: its rows are episodes from the deepest up. */
  ghost predicate Table(values: seq<Positive>, rows: seq<Episode>, episodes: seq<Episode>) {
    && (forall r :: r in rows ==> r in episodes)
    && Sorted(rows, ByDepth(values))
  }

  /** The first row carries the deepest decline of the curve and its first trough, and there is none
      exactly when the curve never declines. */
  method DrawdownEpisodes(values: seq<Positive>, top: nat) returns (rows: seq<Episode>)
    ensures exists episodes :: EpisodesOf(values, |values|, episodes) && |rows| == Min(top, |episodes|) && Table(values, rows, episodes)
    ensures top > 0 && rows == [] ==> forall j :: 0 <= j < |values| ==> !Declined(values, j)
    ensures rows != [] ==> IsEpisode(values, |values|, rows[0])
                           && Deepest(values, |values|, Depth(values, rows[0]), rows[0].trough)
                           && Depth(values, rows[0]) < 0.0
  {
    hide EpisodesOf;
    hide Table;
    hide Deepest;
    hide IsEpisode;
    hide Declined;
    hide Depth;
    hide SortBy;
    var episodes := FindEpisodes(values);
    var sorted := SortBy(episodes, ByDepth(values));
    rows := sorted[..Min(top, |episodes|)];
    TableOf(values, episodes, top);
    if rows == [] && top > 0 {
      NothingDeclined(values, episodes);
    } else if rows != [] {
      FirstRow(values, episodes);
    }
  }

  lemma TableOf(values: seq<Positive>, episodes: seq<Episode>, top: nat)
    ensures Min(top, |episodes|) <= |SortBy(episodes, ByDepth(values))|
    ensures Table(values, SortBy(episodes, ByDepth(values))[..Min(top, |episodes|)], episodes)
  {
    SortedSortBy(episodes, ByDepth(values));
    SameElements(SortBy(episodes, ByDepth(values)), episodes);
  }

  lemma NothingDeclined(values: seq<Positive>, episodes: seq<Episode>)
    requires EpisodesOf(values, |values|, episodes) && episodes == []
    ensures forall j :: 0 <= j < |values| ==> !Declined(values, j)
  {
  }

  lemma FirstRow(values: seq<Positive>, episodes: seq<Episode>)
    requires EpisodesOf(values, |values|, episodes) && episodes != []
    ensures var row := SortBy(episodes, ByDepth(values))[0];
            && IsEpisode(values, |values|, row) && Depth(values, row) < 0.0
            && Deepest(values, |values|, Depth(values, row), row.trough)
  {
    var m := StableHead(episodes, ByDepth(values));
    var row := SortBy(episodes, ByDepth(values))[0];
    forall k | 0 <= k < |episodes|
      ensures Ratio(values, episodes[m]) <= Ratio(values, episodes[k])
    {
      assert ByDepth(values)(episodes[m], episodes[k]);
    }
    forall k | 0 <= k < m
      ensures Ratio(values, episodes[m]) < Ratio(values, episodes[k])
    {
      assert !ByDepth(values)(episodes[k], episodes[m]);
    }
    DeepestEpisode(values, episodes, m);
    EpisodeBoundsItsDates(values, row, row.trough, row.trough);
  }

  /** Whenever the curve declines at all, the first row of the table and the running peak report the
      same depth and the same trough, and otherwise the running peak reports no decline. */
  lemma TwoAlgorithmsAgree(values: seq<Positive>, worst: real, trough: nat, rows: seq<Episode>)
    requires values != [] && Deepest(values, |values|, worst, trough)
    requires if rows == [] then forall j :: 0 <= j < |values| ==> !Declined(values, j)
             else IsEpisode(values, |values|, rows[0]) && Deepest(values, |values|, Depth(values, rows[0]), rows[0].trough)
                  && Depth(values, rows[0]) < 0.0
    ensures rows != [] ==> worst == Depth(values, rows[0]) && trough == rows[0].trough
    ensures rows == [] ==> worst == 0.0 && trough == 0
    ensures worst < 0.0 <==> exists j :: 0 <= j < |values| && Declined(values, j)
  {
    if rows == [] {
      var i :| 0 <= i <= trough && Change(values, i, trough) == worst;
      UndeclinedChange(values, i, trough);
      OverOrders(values[0], values[0], values[0], values[0]);
      assert worst <= Change(values, 0, 0) == 0.0;
    } else {
      DeepestIsUnique(values, |values|, worst, trough, Depth(values, rows[0]), rows[0].trough);
      assert values[rows[0].trough] < values[rows[0].peak];
      assert Declined(values, rows[0].trough);
    }
  }
}
