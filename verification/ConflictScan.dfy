/** What the identifier conflict scan reports,
    and exactly when it misses a conflict. */
module ConflictScan {
  import opened Domain
  import opened Ranges
  import opened Records
  import opened Masters
  import Sorting

  type Entry = Record<Identifier>

  /** What a group of records must agree on: its security, or its value. */
  type Tag<T> = Entry -> T

  // ----- the scan as one pass over the records in order of their start

  predicate StartsNoLater(a: Entry, b: Entry) {
    a.validFrom <= b.validFrom
  }

  predicate EndsNoLater(a: Entry, b: Entry) {
    b.validTo.None? || (a.validTo.Some? && a.validTo.value <= b.validTo.value)
  }

  /** Does `b`, which starts no earlier, start before `a` ends? */
  predicate Meets(a: Entry, b: Entry) {
    a.validTo.None? || b.validFrom < a.validTo.value
  }

  function InOrder(group: seq<Entry>): seq<Entry> {
    Sorting.SortBy(group, StartsNoLater)
  }

  /** Each record is compared with the last one kept: it is paired and dropped, or kept in its turn. */
  function Sweep(s: seq<Entry>): seq<(Entry, Entry)>
    decreases |s|
  {
    if |s| < 2 then []
    else if Meets(s[0], s[1]) then [(s[0], s[1])] + Sweep([s[0]] + s[2..])
    else Sweep(s[1..])
  }

  function Kept(s: seq<Entry>): seq<Entry>
    decreases |s|
  {
    if |s| < 2 then s
    else if Meets(s[0], s[1]) then Kept([s[0]] + s[2..])
    else [s[0]] + Kept(s[1..])
  }

  function Dropped(s: seq<Entry>): seq<Entry>
    decreases |s|
  {
    if |s| < 2 then []
    else if Meets(s[0], s[1]) then [s[1]] + Dropped([s[0]] + s[2..])
    else Dropped(s[1..])
  }

  // ----- positions in the sorted enumeration

  lemma {:induction false} FirstCollisionFirst(s: seq<Indexed>) returns (k: nat)
    ensures FirstCollision(s).None? ==> forall p :: 0 <= p < |s| - 1 ==> !Collides(s[p], s[p + 1])
    ensures FirstCollision(s).Some? ==>
              && k < |s| - 1 && Collides(s[k], s[k + 1]) && FirstCollision(s) == Some((s[k].index, s[k + 1].index))
              && forall p :: 0 <= p < k ==> !Collides(s[p], s[p + 1])
  {
    k := 0;
    if |s| >= 2 && !Collides(s[0], s[1]) {
      k := FirstCollisionFirst(s[1..]);
      forall p | 0 <= p < |s| - 1 && (FirstCollision(s).None? || p < k + 1)
        ensures !Collides(s[p], s[p + 1])
      {
        assert p > 0 ==> !Collides(s[1..][p - 1], s[1..][p]);
      }
      k := k + 1;
    }
  }

  /** The records stand where their enumerated ranges stand. */
  ghost predicate Aligned(es: seq<Indexed>, rs: seq<Entry>, group: seq<Entry>) {
    && |es| == |rs|
    && forall p :: 0 <= p < |es| ==> es[p].index < |group| && group[es[p].index] == rs[p] && es[p].range == RangeOf(rs[p])
  }

  lemma {:induction false} InsertAligned(e: Indexed, r: Entry, es: seq<Indexed>, rs: seq<Entry>, group: seq<Entry>)
    requires Aligned([e], [r], group) && Aligned(es, rs, group)
    ensures Aligned(Sorting.Insert(e, es, FromLeq), Sorting.Insert(r, rs, StartsNoLater), group)
  {
    assert [e][0] == e && [r][0] == r;
    if es != [] && !FromLeq(e, es[0]) {
      InsertAligned(e, r, es[1..], rs[1..], group);
    }
  }

  lemma {:induction false} SortAligned(es: seq<Indexed>, rs: seq<Entry>, group: seq<Entry>)
    requires Aligned(es, rs, group)
    ensures Aligned(Sorting.SortBy(es, FromLeq), Sorting.SortBy(rs, StartsNoLater), group)
  {
    if es != [] {
      SortAligned(es[1..], rs[1..], group);
      assert Aligned([es[0]], [rs[0]], group);
      InsertAligned(es[0], rs[0], Sorting.SortBy(es[1..], FromLeq), Sorting.SortBy(rs[1..], StartsNoLater), group);
    }
  }

  function Order(group: seq<Entry>): seq<Indexed> {
    Sorting.SortBy(Enumerated(RangesOf(group)), FromLeq)
  }

  lemma OrderAligned(group: seq<Entry>)
    ensures Aligned(Order(group), InOrder(group), group)
  {
    SortAligned(Enumerated(RangesOf(group)), group, group);
  }

  /** Discarding the record a position refers to discards that position of the sorted group. */
  lemma DiscardAt(group: seq<Entry>, q: nat)
    requires q < |Order(group)|
    ensures |InOrder(group)| == |Order(group)| && Order(group)[q].index < |group|
    ensures var j := Order(group)[q].index;
            InOrder(group[..j] + group[j + 1..]) == InOrder(group)[..q] + InOrder(group)[q + 1..]
  {
    OrderAligned(group);
    var es, j := Enumerated(RangesOf(group)), Order(group)[q].index;
    var rest := group[..j] + group[j + 1..];
    OrderWithout(group, q);
    EnumeratedWithout(group, j);
    hide *;
    SortAligned(es[..j] + es[j + 1..], rest, group);
    InOrderIs(rest);
    AlignedWithout(Order(group), InOrder(group), group, q);
    AlignedOnce(Order(group)[..q] + Order(group)[q + 1..], InOrder(rest), InOrder(group)[..q] + InOrder(group)[q + 1..], group);
  }

  lemma EnumeratedWithout(group: seq<Entry>, j: nat)
    requires j < |group|
    ensures var es := Enumerated(RangesOf(group));
            |es| == |group| && Aligned(es[..j] + es[j + 1..], group[..j] + group[j + 1..], group)
  {
  }

  lemma InOrderIs(group: seq<Entry>)
    ensures InOrder(group) == Sorting.SortBy(group, StartsNoLater)
  {
  }

  lemma AlignedWithout(es: seq<Indexed>, rs: seq<Entry>, group: seq<Entry>, q: nat)
    requires Aligned(es, rs, group) && q < |es|
    ensures |rs| == |es| && Aligned(es[..q] + es[q + 1..], rs[..q] + rs[q + 1..], group)
  {
  }

  lemma OrderWithout(group: seq<Entry>, q: nat)
    requires q < |Order(group)| && Order(group)[q].index < |group|
    ensures var es, j := Enumerated(RangesOf(group)), Order(group)[q].index;
            Sorting.SortBy(es[..j] + es[j + 1..], FromLeq) == Order(group)[..q] + Order(group)[q + 1..]
  {
    hide *;
    var es, j := Enumerated(RangesOf(group)), Order(group)[q].index;
    OrderOf(group, j);
    TakenApart(es, j);
    FromLeqOrders();
    var a, e, b := es[..j], es[j], es[j + 1..];
    var u, v := Sorting.SortWithout(a, e, b, FromLeq);
    SplitAt(Order(group), u, e, v);
    SamePlace(group, |u|, q);
  }

  lemma FromLeqOrders()
    ensures Sorting.TotalPreorder(FromLeq)
  {
  }

  lemma OrderOf(group: seq<Entry>, j: nat)
    requires j < |group|
    ensures Order(group) == Sorting.SortBy(Enumerated(RangesOf(group)), FromLeq)
    ensures |Enumerated(RangesOf(group))| == |group| && Enumerated(RangesOf(group))[j].index == j
  {
  }

  lemma TakenApart(s: seq<Indexed>, j: nat)
    requires j < |s|
    ensures s == s[..j] + [s[j]] + s[j + 1..]
  {
  }

  lemma SplitAt(s: seq<Indexed>, u: seq<Indexed>, e: Indexed, v: seq<Indexed>)
    requires s == u + [e] + v
    ensures |u| < |s| && s[|u|] == e && s[..|u|] == u && s[|u| + 1..] == v
  {
  }

  lemma SamePlace(group: seq<Entry>, p: nat, q: nat)
    requires p < |Order(group)| && q < |Order(group)| && Order(group)[p].index == Order(group)[q].index
    ensures p == q
  {
    SortedEnumeration(RangesOf(group));
    assert Order(group)[p] == Order(group)[q];
  }

  lemma AlignedOnce(es: seq<Indexed>, rs: seq<Entry>, ts: seq<Entry>, group: seq<Entry>)
    requires Aligned(es, rs, group) && Aligned(es, ts, group)
    ensures rs == ts
  {
  }

  // ----- the search, discarding one record after another, is the sweep

  lemma {:induction false} SweepQuiet(s: seq<Entry>)
    requires forall p :: 0 <= p < |s| - 1 ==> !Meets(s[p], s[p + 1])
    ensures Sweep(s) == []
  {
    if |s| >= 2 {
      SweepQuiet(s[1..]);
    }
  }

  lemma {:induction false} SweepFirst(s: seq<Entry>, k: nat)
    requires k < |s| - 1 && Meets(s[k], s[k + 1]) && forall p :: 0 <= p < k ==> !Meets(s[p], s[p + 1])
    ensures Sweep(s) == [(s[k], s[k + 1])] + Sweep(s[..k + 1] + s[k + 2..])
  {
    var t := s[..k + 1] + s[k + 2..];
    if k == 0 {
      assert s[..1] == [s[0]];
    } else {
      SweepFirst(s[1..], k - 1);
      assert t[1..] == s[1..][..k] + s[1..][k + 1..];
      assert t[0] == s[0] && t[1] == s[1];
    }
  }

  lemma {:induction false} ScanIsSweep(group: seq<Entry>)
    ensures OverlappingPairs(group) == Sweep(InOrder(group))
    decreases |group|
  {
    OrderAligned(group);
    var es, s := Order(group), InOrder(group);
    var k := FirstCollisionFirst(es);
    FirstHit(group);
    hide Sorting.SortBy;
    hide FirstCollision;
    hide FirstOverlap;
    forall p | 0 <= p < |s| - 1
      ensures Collides(es[p], es[p + 1]) <==> Meets(s[p], s[p + 1])
    {
      assert es[p].range == RangeOf(s[p]) && es[p + 1].range == RangeOf(s[p + 1]);
    }
    if FirstCollision(es).None? {
      hide Collides;
      hide Meets;
      SweepQuiet(s);
    } else {
      hide Collides;
      hide Meets;
      var j := es[k + 1].index;
      assert group[es[k].index] == s[k] && group[j] == s[k + 1];
      SweepFirst(s, k);
      DiscardAt(group, k + 1);
      ScanIsSweep(group[..j] + group[j + 1..]);
    }
  }

  /** The search looks for the first collision in the enumeration sorted by start. */
  lemma FirstHit(group: seq<Entry>)
    ensures FirstOverlap(RangesOf(group)) == FirstCollision(Order(group))
    ensures FirstCollision(Order(group)).Some? ==>
              var (i, j) := FirstCollision(Order(group)).value;
              && i < |group| && j < |group|
              && OverlappingPairs(group) == [(group[i], group[j])] + OverlappingPairs(group[..j] + group[j + 1..])
    ensures FirstCollision(Order(group)).None? ==> OverlappingPairs(group) == []
  {
    OnlyOne(group);
    OverlapIsCollision(group);
    hide FirstOverlap;
    hide Order;
    hide FirstCollision;
  }

  lemma OverlapIsCollision(group: seq<Entry>)
    ensures FirstOverlap(RangesOf(group)) == FirstCollision(Order(group))
  {
    hide Enumerated;
    hide Sorting.SortBy;
    hide FirstCollision;
  }

  lemma OnlyOne(group: seq<Entry>)
    ensures |group| <= 1 ==> FirstCollision(Order(group)).None?
  {
    assert |Order(group)| == |group|;
  }

  // ----- silence and conflicts

  /** No reported pair disagrees. */
  ghost predicate Silent<T>(group: seq<Entry>, tag: Tag<T>) {
    forall i :: 0 <= i < |OverlappingPairs(group)| ==> tag(OverlappingPairs(group)[i].0) == tag(OverlappingPairs(group)[i].1)
  }

  predicate Clash<T(==)>(a: Entry, b: Entry, tag: Tag<T>) {
    Overlap(RangeOf(a), RangeOf(b)) && tag(a) != tag(b)
  }

  /** Two records that disagree share a date. */
  ghost predicate Conflict<T(!new)>(group: seq<Entry>, tag: Tag<T>) {
    exists a, b :: a in group && b in group && Clash(a, b, tag)
  }

  ghost predicate AllProper(group: seq<Entry>) {
    forall r :: r in group ==> Proper(RangeOf(r))
  }

  ghost predicate Ordered(s: seq<Entry>) {
    Sorting.Sorted(s, StartsNoLater)
  }

  /** The sweep meets no record that disagrees with the one kept before it. */
  ghost predicate Quiet<T>(s: seq<Entry>, tag: Tag<T>)
    decreases |s|
  {
    |s| < 2 ||
    if Meets(s[0], s[1]) then tag(s[0]) == tag(s[1]) && Quiet([s[0]] + s[2..], tag) else Quiet(s[1..], tag)
  }

  lemma {:induction false} QuietMeans<T>(s: seq<Entry>, tag: Tag<T>)
    ensures Quiet(s, tag) <==> forall i :: 0 <= i < |Sweep(s)| ==> tag(Sweep(s)[i].0) == tag(Sweep(s)[i].1)
    decreases |s|
  {
    if |s| >= 2 {
      if Meets(s[0], s[1]) {
        var rest := [s[0]] + s[2..];
        QuietMeans(rest, tag);
        assert Sweep(s) == [(s[0], s[1])] + Sweep(rest);
        assert Sweep(s)[0] == (s[0], s[1]);
        assert forall i :: 0 <= i < |Sweep(rest)| ==> Sweep(s)[i + 1] == Sweep(rest)[i];
      } else {
        QuietMeans(s[1..], tag);
        assert Sweep(s) == Sweep(s[1..]);
      }
    }
  }

  lemma SilentIsQuiet<T>(group: seq<Entry>, tag: Tag<T>)
    ensures Silent(group, tag) <==> Quiet(InOrder(group), tag)
  {
    ScanIsSweep(group);
    QuietMeans(InOrder(group), tag);
  }

  lemma InOrderFacts(group: seq<Entry>)
    ensures Ordered(InOrder(group)) && forall r :: r in InOrder(group) <==> r in group
  {
    Sorting.SortedSortBy(group, StartsNoLater);
    var s := Sorting.SortBy(group, StartsNoLater);
    forall r: Entry
      ensures r in InOrder(group) <==> r in group
    {
      assert multiset(s) == multiset(group);
      assert r in s <==> r in multiset(s);
      assert r in group <==> r in multiset(group);
    }
  }

  // ----- what is kept and what is dropped

  ghost predicate Apart(s: seq<Entry>) {
    forall p, q :: 0 <= p < q < |s| ==> EndsBefore(RangeOf(s[p]), RangeOf(s[q]))
  }

  lemma {:induction false} KeptOrDropped(s: seq<Entry>, r: Entry)
    ensures r in s <==> r in Kept(s) || r in Dropped(s)
    decreases |s|
  {
    if |s| >= 2 {
      if Meets(s[0], s[1]) {
        KeptOrDropped([s[0]] + s[2..], r);
        assert s == [s[0], s[1]] + s[2..];
      } else {
        KeptOrDropped(s[1..], r);
        assert s == [s[0]] + s[1..];
      }
    }
  }

  lemma {:induction false} KeptStarts(s: seq<Entry>)
    ensures |Kept(s)| <= |s| && (s != [] ==> Kept(s) != [] && Kept(s)[0] == s[0])
    decreases |s|
  {
    if |s| >= 2 && Meets(s[0], s[1]) {
      KeptStarts([s[0]] + s[2..]);
    } else if |s| >= 2 {
      KeptStarts(s[1..]);
    }
  }

  lemma SkipOrdered(s: seq<Entry>)
    requires |s| >= 2 && Ordered(s)
    ensures Ordered([s[0]] + s[2..]) && Ordered(s[1..])
  {
  }

  /** Kept records follow one another without overlap. */
  lemma {:induction false} KeptApart(s: seq<Entry>)
    requires Ordered(s)
    ensures Apart(Kept(s))
    decreases |s|
  {
    if |s| >= 2 {
      SkipOrdered(s);
      if Meets(s[0], s[1]) {
        KeptApart([s[0]] + s[2..]);
      } else {
        KeptApart(s[1..]);
        forall q | 0 <= q < |Kept(s[1..])|
          ensures EndsBefore(RangeOf(s[0]), RangeOf(Kept(s[1..])[q]))
        {
          var k := Kept(s[1..])[q];
          assert k in Kept(s[1..]);
          KeptOrDropped(s[1..], k);
          StartsAfterHead(s[1..], k);
        }
      }
    }
  }

  lemma StartsAfterHead(s: seq<Entry>, r: Entry)
    requires Ordered(s) && r in s
    ensures s[0].validFrom <= r.validFrom
  {
    var p :| 0 <= p < |s| && s[p] == r;
    assert p == 0 || StartsNoLater(s[0], s[p]);
  }

  /** `k` was kept, agrees with `y`, starts no later and reaches its start. */
  ghost predicate Keeps<T>(s: seq<Entry>, tag: Tag<T>, k: Entry, y: Entry) {
    k in Kept(s) && tag(k) == tag(y) && StartsNoLater(k, y) && Meets(k, y)
  }

  /** In a quiet sweep every dropped record was dropped in favour of a kept one that agrees with it. */
  lemma {:induction false} Keeper<T>(s: seq<Entry>, tag: Tag<T>, y: Entry) returns (k: Entry)
    requires Ordered(s) && Quiet(s, tag) && y in Dropped(s)
    ensures Keeps(s, tag, k, y)
    decreases |s|
  {
    SkipOrdered(s);
    if Meets(s[0], s[1]) {
      var rest := [s[0]] + s[2..];
      KeptStarts(rest);
      if y == s[1] {
        k := s[0];
        assert Kept(rest)[0] in Kept(rest);
        assert StartsNoLater(s[0], s[1]);
      } else {
        k := Keeper(rest, tag, y);
      }
    } else {
      k := Keeper(s[1..], tag, y);
    }
  }

  function KeptOf(group: seq<Entry>): seq<Entry> {
    Kept(InOrder(group))
  }

  function DroppedOf(group: seq<Entry>): seq<Entry> {
    Dropped(InOrder(group))
  }

  /** A dropped record shares a date with a kept one that disagrees with it. */
  ghost predicate Hidden<T(!new)>(group: seq<Entry>, tag: Tag<T>) {
    exists y, k :: y in DroppedOf(group) && k in KeptOf(group) && Clash(y, k, tag)
  }

  lemma KeptDisagreeApart<T>(group: seq<Entry>, tag: Tag<T>, a: Entry, b: Entry)
    requires AllProper(group) && a in KeptOf(group) && b in KeptOf(group)
    ensures !Clash(a, b, tag)
  {
    InOrderFacts(group);
    KeptApart(InOrder(group));
    var s := KeptOf(group);
    var p :| 0 <= p < |s| && s[p] == a;
    var q :| 0 <= q < |s| && s[q] == b;
    assert p < q ==> EndsBefore(RangeOf(s[p]), RangeOf(s[q]));
    assert q < p ==> EndsBefore(RangeOf(s[q]), RangeOf(s[p]));
  }

  lemma ClashBack<T>(a: Entry, b: Entry, tag: Tag<T>)
    ensures Clash(a, b, tag) <==> Clash(b, a, tag)
  {
  }

  /** A conflict behind a silent scan always shows between a dropped record and a kept one: with `a`
      starting first, `a` was dropped, and `b` or the record that stands for it was kept. */
  lemma ConflictIsHidden<T(!new)>(group: seq<Entry>, tag: Tag<T>, a: Entry, b: Entry)
    requires AllProper(group) && Silent(group, tag) && a in group && b in group && Clash(a, b, tag) && StartsNoLater(a, b)
    ensures Hidden(group, tag)
  {
    var s := InOrder(group);
    InOrderFacts(group);
    SilentIsQuiet(group, tag);
    KeptOrDropped(s, a);
    KeptOrDropped(s, b);
    var k := b;
    if b in Dropped(s) {
      k := Keeper(s, tag, b);
      KeptOrDropped(s, k);
      assert Contains(RangeOf(a), b.validFrom) && Contains(RangeOf(k), b.validFrom);
    }
    assert Clash(a, k, tag);
    if a in Kept(s) {
      KeptDisagreeApart(group, tag, a, k);
    }
    assert a in DroppedOf(group) && k in KeptOf(group);
  }

  /** Whatever is reported really is a conflict. */
  lemma ReportIsConflict<T(!new)>(group: seq<Entry>, tag: Tag<T>)
    requires AllProper(group) && !Silent(group, tag)
    ensures Conflict(group, tag)
  {
    var i :| 0 <= i < |OverlappingPairs(group)| && tag(OverlappingPairs(group)[i].0) != tag(OverlappingPairs(group)[i].1);
    ScanIsSweep(group);
    InOrderFacts(group);
    SweptPair(InOrder(group), OverlappingPairs(group)[i].0, OverlappingPairs(group)[i].1);
    assert Clash(OverlappingPairs(group)[i].0, OverlappingPairs(group)[i].1, tag);
  }

  lemma {:induction false} SweptPair(s: seq<Entry>, a: Entry, b: Entry)
    requires Ordered(s) && AllProper(s) && (a, b) in Sweep(s)
    ensures a in s && b in s && Overlap(RangeOf(a), RangeOf(b))
    decreases |s|
  {
    SkipOrdered(s);
    if Meets(s[0], s[1]) {
      assert StartsNoLater(s[0], s[1]);
      if (a, b) != (s[0], s[1]) {
        SweptPair([s[0]] + s[2..], a, b);
      }
    } else {
      SweptPair(s[1..], a, b);
    }
  }

  /** For every group of proper records the scan is right, silent exactly when no two records that
      disagree share a date, unless it is silent while some record it dropped shares a date with a kept
      record that disagrees. */
  lemma ScanIsRightExactlyWhen<T(!new)>(group: seq<Entry>, tag: Tag<T>)
    requires AllProper(group)
    ensures (Silent(group, tag) <==> !Conflict(group, tag)) <==> !(Silent(group, tag) && Hidden(group, tag))
  {
    if Silent(group, tag) {
      if Conflict(group, tag) {
        var a, b :| a in group && b in group && Clash(a, b, tag);
        ClashBack(a, b, tag);
        if StartsNoLater(a, b) {
          ConflictIsHidden(group, tag, a, b);
        } else {
          ConflictIsHidden(group, tag, b, a);
        }
      }
      if Hidden(group, tag) {
        var y, k :| y in DroppedOf(group) && k in KeptOf(group) && Clash(y, k, tag);
        InOrderFacts(group);
        KeptOrDropped(InOrder(group), y);
        KeptOrDropped(InOrder(group), k);
      }
    } else {
      ReportIsConflict(group, tag);
    }
  }

  // ----- repeats that are contained

  /** Every record that overlaps an agreeing one sorted before it ends no later than it. */
  ghost predicate Contained<T>(group: seq<Entry>, tag: Tag<T>) {
    var s := InOrder(group);
    forall p, q :: 0 <= p < q < |s| && Overlap(RangeOf(s[p]), RangeOf(s[q])) && tag(s[p]) == tag(s[q]) ==> EndsNoLater(s[q], s[p])
  }

  /** Where a dropped record's keeper stands before it. */
  lemma {:induction false} KeeperBefore<T>(s: seq<Entry>, tag: Tag<T>, y: Entry) returns (p: nat, q: nat)
    requires Ordered(s) && Quiet(s, tag) && y in Dropped(s)
    ensures p < q < |s| && s[q] == y && Keeps(s, tag, s[p], y)
    decreases |s|
  {
    SkipOrdered(s);
    if Meets(s[0], s[1]) {
      var rest := [s[0]] + s[2..];
      KeptStarts(rest);
      if y == s[1] {
        p, q := 0, 1;
        assert Kept(rest)[0] in Kept(rest);
        assert StartsNoLater(s[0], s[1]);
      } else {
        p, q := KeeperBefore(rest, tag, y);
        p, q := if p == 0 then 0 else p + 1, q + 1;
      }
    } else {
      p, q := KeeperBefore(s[1..], tag, y);
      p, q := p + 1, q + 1;
    }
  }

  /** On such groups the scan is right. */
  lemma ContainedIsRight<T(!new)>(group: seq<Entry>, tag: Tag<T>)
    requires AllProper(group) && Contained(group, tag)
    ensures Silent(group, tag) <==> !Conflict(group, tag)
  {
    ScanIsRightExactlyWhen(group, tag);
    if Silent(group, tag) && Hidden(group, tag) {
      var y, k :| y in DroppedOf(group) && k in KeptOf(group) && Clash(y, k, tag);
      var s := InOrder(group);
      InOrderFacts(group);
      SilentIsQuiet(group, tag);
      KeptOrDropped(s, y);
      KeptOrDropped(s, k);
      var p, q := KeeperBefore(s, tag, y);
      KeptOrDropped(s, s[p]);
      assert Overlap(RangeOf(s[p]), RangeOf(s[q]));
      assert EndsNoLater(y, s[p]);
      assert Clash(s[p], k, tag);
      KeptDisagreeApart(group, tag, s[p], k);
    }
  }

  // ----- which repeats are safe, whatever else the group holds

  /** Every date a record covers is covered by a kept one. */
  ghost predicate KeptCover(own: seq<Entry>) {
    forall y, day :: y in own && InForce(y, day) ==> CoveredBy(KeptOf(own), day)
  }

  ghost predicate CoveredBy(s: seq<Entry>, day: Date) {
    exists k :: k in s && InForce(k, day)
  }

  ghost predicate AllTagged<T>(s: seq<Entry>, tag: Tag<T>, t: T) {
    forall r :: r in s ==> tag(r) == t
  }

  lemma {:induction false} OneTagIsQuiet<T>(s: seq<Entry>, tag: Tag<T>, t: T)
    requires AllTagged(s, tag, t)
    ensures Quiet(s, tag)
    decreases |s|
  {
    if |s| >= 2 {
      if Meets(s[0], s[1]) {
        OneTagIsQuiet([s[0]] + s[2..], tag, t);
      } else {
        OneTagIsQuiet(s[1..], tag, t);
      }
    }
  }

  /** The kept records of a prefix stay kept, and the others come from the rest. */
  lemma {:induction false} KeptOfPrefix(a: seq<Entry>, b: seq<Entry>, k: Entry)
    ensures k in Kept(a) ==> k in Kept(a + b)
    ensures k in Kept(a + b) ==> k in Kept(a) || k in b
    decreases |a|
  {
    var s := a + b;
    if a == [] {
      assert s == b;
      KeptOrDropped(b, k);
    } else if |a| == 1 {
      KeptStarts(s);
      KeptOrDropped(s, k);
      assert Kept(s)[0] in Kept(s);
      assert s == a + b && a == [a[0]];
    } else if Meets(a[0], a[1]) {
      assert [s[0]] + s[2..] == ([a[0]] + a[2..]) + b;
      KeptOfPrefix([a[0]] + a[2..], b, k);
    } else {
      assert s[1..] == a[1..] + b;
      KeptOfPrefix(a[1..], b, k);
    }
  }

  /** `z` starts after everything kept before it has ended. */
  ghost predicate Fits(a: seq<Entry>, z: Entry) {
    forall k :: k in Kept(a) ==> EndsBefore(RangeOf(k), RangeOf(z))
  }

  ghost predicate OverBefore(z: Entry, b: seq<Entry>) {
    forall r :: r in b ==> EndsBefore(RangeOf(z), RangeOf(r))
  }

  lemma {:induction false} QuietAround<T>(a: seq<Entry>, z: Entry, b: seq<Entry>, tag: Tag<T>, t: T)
    requires AllTagged(a, tag, t) && AllTagged(b, tag, t) && Fits(a, z) && OverBefore(z, b)
    ensures Quiet(a + [z] + b, tag)
    decreases |a|
  {
    var s := a + [z] + b;
    if a == [] {
      assert s == [z] + b && s[1..] == b;
      if b != [] {
        assert b[0] in b && s[1] == b[0] && !Meets(z, b[0]);
      }
      OneTagIsQuiet(b, tag, t);
    } else if |a| == 1 {
      assert Kept(a) == a && a[0] in a;
      assert s[1..] == [] + [z] + b;
      QuietAround([], z, b, tag, t);
    } else if Meets(a[0], a[1]) {
      assert [s[0]] + s[2..] == ([a[0]] + a[2..]) + [z] + b;
      QuietAround([a[0]] + a[2..], z, b, tag, t);
    } else {
      assert s[1..] == a[1..] + [z] + b;
      QuietAround(a[1..], z, b, tag, t);
    }
  }

  /** Between records that agree, one that disagrees goes unreported only where it touches no kept one. */
  lemma {:induction false} QuietOnlyApart<T>(a: seq<Entry>, z: Entry, b: seq<Entry>, tag: Tag<T>, t: T)
    requires AllTagged(a, tag, t) && AllTagged(b, tag, t) && tag(z) != t
    requires Ordered(a + [z] + b) && Quiet(a + [z] + b, tag)
    ensures Fits(a, z) && OverBefore(z, b)
    decreases |a|
  {
    var s := a + [z] + b;
    if a == [] {
      assert s == [z] + b;
      if b != [] {
        assert b[0] in b && !Meets(z, b[0]);
        forall r | r in b
          ensures EndsBefore(RangeOf(z), RangeOf(r))
        {
          SortedTail([z], b);
          StartsAfterHead(b, r);
        }
      }
    } else {
      SkipOrdered(s);
      if |a| == 1 {
        assert Kept(a) == a && a == [a[0]] && a[0] in a;
        assert s[1..] == [] + [z] + b;
        QuietOnlyApart([], z, b, tag, t);
      } else if Meets(a[0], a[1]) {
        assert [s[0]] + s[2..] == ([a[0]] + a[2..]) + [z] + b;
        QuietOnlyApart([a[0]] + a[2..], z, b, tag, t);
      } else {
        assert s[1..] == a[1..] + [z] + b;
        QuietOnlyApart(a[1..], z, b, tag, t);
        assert s[|a|] == z && StartsNoLater(s[1], s[|a|]);
      }
    }
  }

  lemma SortedTail(a: seq<Entry>, b: seq<Entry>)
    requires Ordered(a + b)
    ensures Ordered(a) && Ordered(b)
  {
    assert forall p :: 0 <= p < |a| ==> (a + b)[p] == a[p];
    assert forall p :: 0 <= p < |b| ==> (a + b)[|a| + p] == b[p];
  }

  /** Where a record added to a group comes in order. */
  lemma AddedInOrder(own: seq<Entry>, z: Entry) returns (a: seq<Entry>, b: seq<Entry>)
    ensures InOrder(own + [z]) == a + [z] + b && InOrder(own) == a + b && Ordered(a + [z] + b)
    ensures forall r :: r in own <==> r in a || r in b
    ensures forall r :: r in a ==> r.validFrom <= z.validFrom
    ensures forall r :: r in b ==> z.validFrom < r.validFrom
  {
    InOrderFacts(own);
    InOrderFacts(own + [z]);
    a, b := Sorting.SortAppended(own, z, StartsNoLater);
    hide Sorting.SortBy;
    hide Sorting.Sorted;
    forall r
      ensures r in own <==> r in a || r in b
    {
      assert r in InOrder(own) <==> r in own;
      assert r in a + b <==> r in a || r in b;
    }
  }

  /** A date only dropped records cover hides a one-day record of another kind from the scan. */
  lemma UncoveredDayHides<T(!new)>(own: seq<Entry>, tag: Tag<T>, t: T, y: Entry, day: Date, z: Entry)
    requires AllProper(own) && AllTagged(own, tag, t) && y in own && InForce(y, day)
    requires !CoveredBy(KeptOf(own), day)
    requires tag(z) != t && z.validFrom == day && z.validTo == Some(day + 1)
    ensures Silent(own + [z], tag) && Conflict(own + [z], tag)
  {
    var a, b := AddedInOrder(own, z);
    forall k | k in Kept(a)
      ensures EndsBefore(RangeOf(k), RangeOf(z))
    {
      KeptOfPrefix(a, b, k);
      KeptOrDropped(a, k);
      assert !InForce(k, day);
    }
    QuietAround(a, z, b, tag, t);
    SilentIsQuiet(own + [z], tag);
    assert y in own + [z] && z in own + [z] && Clash(y, z, tag);
  }

  /** Where the kept records cover everything, no record of another kind can hide. */
  lemma CoveredNeverHides<T(!new)>(own: seq<Entry>, tag: Tag<T>, t: T, z: Entry)
    requires AllProper(own + [z]) && AllTagged(own, tag, t) && KeptCover(own) && tag(z) != t
    ensures Silent(own + [z], tag) <==> !Conflict(own + [z], tag)
  {
    var group := own + [z];
    if !Silent(group, tag) {
      ReportIsConflict(group, tag);
    } else if Conflict(group, tag) {
      var y := ClashWith(own, tag, t, z);
      var day := Max(y.validFrom, z.validFrom);
      assert y in own && InForce(y, day) && InForce(z, day);
      assert CoveredBy(KeptOf(own), day);
      var k :| k in KeptOf(own) && InForce(k, day);
      var a, b := AddedInOrder(own, z);
      SilentIsQuiet(group, tag);
      QuietOnlyApart(a, z, b, tag, t);
      KeptOfPrefix(a, b, k);
      assert false;
    }
  }

  lemma ClashWith<T(!new)>(own: seq<Entry>, tag: Tag<T>, t: T, z: Entry) returns (y: Entry)
    requires AllTagged(own, tag, t) && Conflict(own + [z], tag) && tag(z) != t
    ensures y in own && Clash(y, z, tag)
  {
    var p, q :| p in own + [z] && q in own + [z] && Clash(p, q, tag);
    y := if p == z then q else p;
  }

  // ----- the two searches: one security per value, and one value per security

  function SidOf(r: Entry): SecurityId {
    r.sid
  }

  function ValueOf(r: Entry): string {
    r.fact.value
  }

  lemma SearchesAreScans(group: seq<Entry>)
    ensures OneSecurity(group) <==> Silent(group, SidOf)
    ensures OneValue(group) <==> Silent(group, ValueOf)
  {
  }

  ghost predicate SidsRight(group: seq<Entry>) {
    OneSecurity(group) <==> !Conflict(group, SidOf)
  }

  ghost predicate ValuesRight(group: seq<Entry>) {
    OneValue(group) <==> !Conflict(group, ValueOf)
  }

  /** Both searches, on every group of proper records. */
  lemma SearchesAreRightExactlyWhen(group: seq<Entry>)
    requires AllProper(group)
    ensures SidsRight(group) <==> !(OneSecurity(group) && Hidden(group, SidOf))
    ensures ValuesRight(group) <==> !(OneValue(group) && Hidden(group, ValueOf))
  {
    SearchesAreScans(group);
    ScanIsRightExactlyWhen(group, SidOf);
    ScanIsRightExactlyWhen(group, ValueOf);
  }

  /** Both searches are right on groups whose repeats are contained in earlier ones. */
  lemma ContainedSearchesAreRight(group: seq<Entry>)
    requires AllProper(group)
    ensures Contained(group, SidOf) ==> SidsRight(group)
    ensures Contained(group, ValueOf) ==> ValuesRight(group)
  {
    SearchesAreScans(group);
    if Contained(group, SidOf) {
      ContainedIsRight(group, SidOf);
    }
    if Contained(group, ValueOf) {
      ContainedIsRight(group, ValueOf);
    }
  }

  ghost predicate SafeFromSids(own: seq<Entry>, sid: SecurityId) {
    forall z: Entry :: Proper(RangeOf(z)) && z.sid != sid ==> SidsRight(own + [z])
  }

  ghost predicate SafeFromValues(own: seq<Entry>, value: string) {
    forall z: Entry :: Proper(RangeOf(z)) && z.fact.value != value ==> ValuesRight(own + [z])
  }

  function OneDay(day: Date, sid: SecurityId, fact: Identifier): Entry {
    Record(sid, day, Some(day + 1), None, None, fact)
  }

  /** What one security holds under a value never hides another security's claim to it exactly when
      every date its records cover is covered by one the scan keeps. */
  lemma RepeatsHideNoSecurityExactlyWhen(own: seq<Entry>, sid: SecurityId)
    requires AllProper(own) && AllTagged(own, SidOf, sid)
    ensures SafeFromSids(own, sid) <==> KeptCover(own)
  {
    if KeptCover(own) {
      forall z: Entry | Proper(RangeOf(z)) && z.sid != sid
        ensures SidsRight(own + [z])
      {
        SearchesAreScans(own + [z]);
        CoveredNeverHides(own, SidOf, sid, z);
      }
    } else {
      var y, day :| y in own && InForce(y, day) && !CoveredBy(KeptOf(own), day);
      var z := OneDay(day, sid + 1, y.fact);
      UncoveredDayHides(own, SidOf, sid, y, day, z);
      SearchesAreScans(own + [z]);
      assert !SidsRight(own + [z]);
    }
  }

  /** The same of a security's repeated value and its other values. */
  lemma RepeatsHideNoValueExactlyWhen(own: seq<Entry>, value: string)
    requires AllProper(own) && AllTagged(own, ValueOf, value)
    ensures SafeFromValues(own, value) <==> KeptCover(own)
  {
    if KeptCover(own) {
      forall z: Entry | Proper(RangeOf(z)) && z.fact.value != value
        ensures ValuesRight(own + [z])
      {
        SearchesAreScans(own + [z]);
        CoveredNeverHides(own, ValueOf, value, z);
      }
    } else {
      var y, day :| y in own && InForce(y, day) && !CoveredBy(KeptOf(own), day);
      var other := Identifier(y.fact.kind, value + "'", y.fact.mic, y.fact.provider, y.fact.source);
      var z := OneDay(day, y.sid, other);
      assert |other.value| == |value| + 1;
      UncoveredDayHides(own, ValueOf, value, y, day, z);
      SearchesAreScans(own + [z]);
      assert !ValuesRight(own + [z]);
    }
  }

  lemma PairKept(x: Entry, y: Entry)
    requires StartsNoLater(x, y) && Overlap(RangeOf(x), RangeOf(y))
    ensures KeptOf([x, y]) == [x]
  {
    var own := [x, y];
    assert own[1..] == [y] && [y][1..] == [];
    assert Sorting.SortBy([y], StartsNoLater) == [y];
    assert InOrder(own) == own;
    assert [own[0]] + own[2..] == [x];
    assert Meets(own[0], own[1]) && Kept([x]) == [x];
    assert Kept(own) == [x];
  }

  /** Of two overlapping records the scan keeps the one that starts first, so they cover what is kept
      exactly when the other ends no later. */
  lemma PairCover(x: Entry, y: Entry)
    requires Proper(RangeOf(x)) && Proper(RangeOf(y)) && StartsNoLater(x, y) && Overlap(RangeOf(x), RangeOf(y))
    ensures KeptCover([x, y]) <==> EndsNoLater(y, x)
  {
    var own := [x, y];
    PairKept(x, y);
    if EndsNoLater(y, x) {
      forall r, day | r in own && InForce(r, day)
        ensures CoveredBy(KeptOf(own), day)
      {
        assert x in KeptOf(own) && InForce(x, day);
      }
    } else {
      assert InForce(y, x.validTo.value) && y in own;
      assert !CoveredBy(KeptOf(own), x.validTo.value);
    }
  }

  /** Two overlapping records of one security, the first starting no later, hide nothing from the scan
      exactly when the second ends no later than the first. */
  lemma PairHidesNothingExactlyWhen(x: Entry, y: Entry)
    requires Proper(RangeOf(x)) && Proper(RangeOf(y)) && StartsNoLater(x, y) && Overlap(RangeOf(x), RangeOf(y))
    ensures x.sid == y.sid ==> (SafeFromSids([x, y], x.sid) <==> EndsNoLater(y, x))
    ensures x.fact.value == y.fact.value ==> (SafeFromValues([x, y], x.fact.value) <==> EndsNoLater(y, x))
  {
    PairCover(x, y);
    if x.sid == y.sid {
      RepeatsHideNoSecurityExactlyWhen([x, y], x.sid);
    }
    if x.fact.value == y.fact.value {
      RepeatsHideNoValueExactlyWhen([x, y], x.fact.value);
    }
  }

  // ----- masters the whole check accepts

  lemma {:induction false} GroupMembers(ids: seq<Entry>, value: string, sid: SecurityId, q: Qualifier)
    ensures forall r :: r in ByValue(ids, value, q) ==> r in ids
    ensures forall r :: r in BySecurity(ids, sid, q) ==> r in ids
  {
    if ids != [] {
      GroupMembers(ids[1..], value, sid, q);
    }
  }

  lemma OneTagIsSilent<T>(group: seq<Entry>, tag: Tag<T>, t: T)
    requires AllTagged(group, tag, t)
    ensures Silent(group, tag)
  {
    InOrderFacts(group);
    OneTagIsQuiet(InOrder(group), tag, t);
    SilentIsQuiet(group, tag);
  }

  const TICKER := Identifier(Ticker, "ABC", "XLON", "", "register")
  const OTHER := Identifier(Ticker, "XYZ", "XLON", "", "register")

  function Span(sid: SecurityId, from: Date, to: Date, fact: Identifier): Entry {
    Record(sid, from, Some(to), None, None, fact)
  }

  /** A first record, a repeat that outlasts it, and a one-day record after the first has ended. */
  function Three(fact: Identifier, sid: SecurityId, other: Identifier): seq<Entry> {
    [Span(1, 0, 10, fact), Span(1, 1, 20, fact), OneDay(12, sid, other)]
  }

  function HolderOf(ids: seq<Entry>): Master {
    Master([1, 2], [], [], ids)
  }

  lemma ThreeIsSilent<T(!new)>(sid: SecurityId, other: Identifier, tag: Tag<T>)
    requires tag(Span(1, 0, 10, TICKER)) == tag(Span(1, 1, 20, TICKER)) != tag(OneDay(12, sid, other))
    ensures Silent(Three(TICKER, sid, other), tag)
  {
    var x, y, z := Span(1, 0, 10, TICKER), Span(1, 1, 20, TICKER), OneDay(12, sid, other);
    var own := [x, y];
    assert own + [z] == Three(TICKER, sid, other);
    PairKept(x, y);
    assert y in own && InForce(y, 12);
    UncoveredDayHides(own, tag, tag(x), y, 12, z);
  }

  /** Records that share what they are grouped by make one group. */
  lemma {:induction false} OneGroupByValue(ids: seq<Entry>, held: string, qualifier: Qualifier, value: string, q: Qualifier)
    requires forall r :: r in ids ==> r.fact.value == held && QualifierOf(r.fact) == qualifier
    ensures ByValue(ids, value, q) == if value == held && q == qualifier then ids else []
  {
    if ids != [] {
      assert ids[0] in ids;
      OneGroupByValue(ids[1..], held, qualifier, value, q);
      assert ids == [ids[0]] + ids[1..];
    }
  }

  lemma {:induction false} OneGroupBySecurity(ids: seq<Entry>, holder: SecurityId, qualifier: Qualifier, sid: SecurityId, q: Qualifier)
    requires forall r :: r in ids ==> r.sid == holder && QualifierOf(r.fact) == qualifier
    ensures BySecurity(ids, sid, q) == if sid == holder && q == qualifier then ids else []
  {
    if ids != [] {
      assert ids[0] in ids;
      OneGroupBySecurity(ids[1..], holder, qualifier, sid, q);
      assert ids == [ids[0]] + ids[1..];
    }
  }

  lemma HolderIsConsistent(ids: seq<Entry>)
    requires forall r :: r in ids ==> Current(r) && WellFormed(r) && r.sid in [1, 2]
    requires NoConflicts(ids)
    ensures RecordsWellFormed(HolderOf(ids)) && Consistent(HolderOf(ids))
  {
    AllCurrent(ids);
    assert forall sid :: Of<StatusFact>([], sid) == [];
    assert forall i :: 0 <= i < |ids| ==> ids[i] in ids;
  }

  /** A master that passes every check although two securities hold one ticker on the same date. */
  lemma TwoSecuritiesCanShareAValue()
    ensures exists m: Master, a, b ::
              && RecordsWellFormed(m) && Consistent(m) && a in m.identifiers && b in m.identifiers
              && Clash(a, b, SidOf) && a.fact.value == b.fact.value && QualifierOf(a.fact) == QualifierOf(b.fact)
  {
    var ids := Three(TICKER, 2, TICKER);
    forall value, q
      ensures OneSecurity(ByValue(ids, value, q))
    {
      OneGroupByValue(ids, TICKER.value, QualifierOf(TICKER), value, q);
      ThreeIsSilent(2, TICKER, SidOf);
      SearchesAreScans(ByValue(ids, value, q));
      OneTagIsSilent([], SidOf, 0);
    }
    forall sid, q
      ensures OneValue(BySecurity(ids, sid, q))
    {
      GroupMembers(ids, "", sid, q);
      OneTagIsSilent(BySecurity(ids, sid, q), ValueOf, TICKER.value);
      SearchesAreScans(BySecurity(ids, sid, q));
    }
    HolderIsConsistent(ids);
    assert ids[1] in HolderOf(ids).identifiers && ids[2] in HolderOf(ids).identifiers && Clash(ids[1], ids[2], SidOf);
  }

  /** A master that passes every check although one security holds two tickers on the same date. */
  lemma OneSecurityCanHoldTwoValues()
    ensures exists m: Master, a, b ::
              && RecordsWellFormed(m) && Consistent(m) && a in m.identifiers && b in m.identifiers
              && Clash(a, b, ValueOf) && a.sid == b.sid && QualifierOf(a.fact) == QualifierOf(b.fact)
  {
    var ids := Three(TICKER, 1, OTHER);
    forall sid, q
      ensures OneValue(BySecurity(ids, sid, q))
    {
      OneGroupBySecurity(ids, 1, QualifierOf(TICKER), sid, q);
      ThreeIsSilent(1, OTHER, ValueOf);
      SearchesAreScans(BySecurity(ids, sid, q));
      OneTagIsSilent([], ValueOf, "");
    }
    forall value, q
      ensures OneSecurity(ByValue(ids, value, q))
    {
      GroupMembers(ids, value, 0, q);
      OneTagIsSilent(ByValue(ids, value, q), SidOf, 1);
      SearchesAreScans(ByValue(ids, value, q));
    }
    HolderIsConsistent(ids);
    assert ids[1] in HolderOf(ids).identifiers && ids[2] in HolderOf(ids).identifiers && Clash(ids[1], ids[2], ValueOf);
  }
}
