/** Half-open effective date ranges:
    a range holds its first day and not its last. */
module Ranges {
  import opened Domain
  import Sorting

  /** [from, to), open-ended without `to`. */
  datatype Range = Range(from: Date, to: Option<Date>)

  predicate Contains(r: Range, on: Date) {
    r.from <= on && (r.to.None? || on < r.to.value)
  }

  predicate EndsBefore(a: Range, b: Range) {
    a.to.Some? && a.to.value <= b.from
  }

  predicate Overlap(a: Range, b: Range) {
    !EndsBefore(a, b) && !EndsBefore(b, a)
  }

  predicate Proper(r: Range) {
    r.to.Some? ==> r.from < r.to.value
  }

  /** Two proper ranges overlap exactly when some date lies in both. */
  lemma OverlapMeansSharedDate(a: Range, b: Range)
    requires Proper(a) && Proper(b)
    ensures Overlap(a, b) <==> exists on :: Contains(a, on) && Contains(b, on)
  {
    if Overlap(a, b) {
      var on := Max(a.from, b.from);
      assert Contains(a, on) && Contains(b, on);
    }
  }

  datatype Indexed = Indexed(range: Range, index: nat)

  predicate FromLeq(a: Indexed, b: Indexed) {
    a.range.from <= b.range.from
  }

  function Enumerated(ranges: seq<Range>): (r: seq<Indexed>)
    ensures |r| == |ranges|
    ensures forall i :: 0 <= i < |r| ==> r[i] == Indexed(ranges[i], i)
  {
    seq(|ranges|, i requires 0 <= i < |ranges| => Indexed(ranges[i], i))
  }

  /** Does the next range start before this one ends? */
  predicate Collides(a: Indexed, b: Indexed) {
    a.range.to.None? || b.range.from < a.range.to.value
  }

  /** The first neighbouring pair that collides. */
  function FirstCollision(s: seq<Indexed>): Option<(nat, nat)> {
    if |s| < 2 then None
    else if Collides(s[0], s[1]) then Some((s[0].index, s[1].index))
    else FirstCollision(s[1..])
  }

  ghost predicate Disjoint(ranges: seq<Range>) {
    forall i, j :: 0 <= i < j < |ranges| ==> !Overlap(ranges[i], ranges[j])
  }

  lemma {:induction false} FirstCollisionFound(s: seq<Indexed>)
    ensures FirstCollision(s).None? ==> forall k :: 0 <= k < |s| - 1 ==> !Collides(s[k], s[k + 1])
    ensures FirstCollision(s).Some? ==>
              exists k :: 0 <= k < |s| - 1 && Collides(s[k], s[k + 1]) && FirstCollision(s) == Some((s[k].index, s[k + 1].index))
  {
    if |s| < 2 {
    } else if Collides(s[0], s[1]) {
    } else {
      FirstCollisionFound(s[1..]);
      if FirstCollision(s).None? {
        forall k | 0 <= k < |s| - 1
          ensures !Collides(s[k], s[k + 1])
        {
          if k > 0 {
            assert !Collides(s[1..][k - 1], s[1..][k]);
          }
        }
      } else {
        var k :| 0 <= k < |s[1..]| - 1 && Collides(s[1..][k], s[1..][k + 1])
                 && FirstCollision(s[1..]) == Some((s[1..][k].index, s[1..][k + 1].index));
        assert Collides(s[k + 1], s[k + 2]);
      }
    }
  }

  ghost predicate At(s: seq<Indexed>, k: int, i: int) {
    0 <= k < |s| && s[k].index == i
  }

  /** The sorted list refers to each input range, by its index. */
  ghost predicate Refers(s: seq<Indexed>, ranges: seq<Range>) {
    forall k :: 0 <= k < |s| ==> s[k].index < |ranges| && ranges[s[k].index] == s[k].range
  }

  lemma SortedEnumeration(ranges: seq<Range>)
    ensures var s := Sorting.SortBy(Enumerated(ranges), FromLeq);
            Sorting.Sorted(s, FromLeq) && Sorting.NoDuplicates(s) && Refers(s, ranges)
  {
    var e := Enumerated(ranges);
    var s := Sorting.SortBy(e, FromLeq);
    Sorting.SortedSortBy(e, FromLeq);
    Sorting.SameElements(s, e);
    Sorting.RearrangedNoDuplicates(s, e);
    forall k | 0 <= k < |s|
      ensures s[k].index < |ranges| && ranges[s[k].index] == s[k].range
    {
      assert s[k] in s;
    }
  }

  /** Sort by start, then compare neighbours only. */
  function FirstOverlap(ranges: seq<Range>): (r: Option<(nat, nat)>)
    ensures r.Some? ==> r.value.0 < |ranges| && r.value.1 < |ranges| && r.value.0 != r.value.1
  {
    var s := Sorting.SortBy(Enumerated(ranges), FromLeq);
    SortedEnumeration(ranges);
    FirstCollisionFound(s);
    FirstCollision(s)
  }

  lemma PositionOf(ranges: seq<Range>, i: nat) returns (k: int)
    requires i < |ranges|
    ensures At(Sorting.SortBy(Enumerated(ranges), FromLeq), k, i)
  {
    var e := Enumerated(ranges);
    var s := Sorting.SortBy(e, FromLeq);
    Sorting.SameElements(s, e);
    assert e[i] in e;
    k :| 0 <= k < |s| && s[k] == e[i];
  }

  lemma CollidingNeighboursOverlap(a: Indexed, b: Indexed)
    requires Collides(a, b) && FromLeq(a, b) && Proper(a.range) && Proper(b.range)
    ensures Overlap(a.range, b.range)
  {
  }

  /** A pair is reported only if there is one, and it does overlap. */
  lemma ReportedPairOverlaps(ranges: seq<Range>)
    requires FirstOverlap(ranges).Some? && forall i :: 0 <= i < |ranges| ==> Proper(ranges[i])
    ensures var (i, j) := FirstOverlap(ranges).value;
            i < |ranges| && j < |ranges| && i != j && Overlap(ranges[i], ranges[j])
  {
    var s := Sorting.SortBy(Enumerated(ranges), FromLeq);
    SortedEnumeration(ranges);
    FirstCollisionFound(s);
    hide FirstCollision;
    var k :| 0 <= k < |s| - 1 && Collides(s[k], s[k + 1]) && FirstCollision(s) == Some((s[k].index, s[k + 1].index));
    var a, b := s[k], s[k + 1];
    assert FromLeq(a, b) && a != b;
    CollidingNeighboursOverlap(a, b);
  }

  lemma LaterIsDisjoint(s: seq<Indexed>, lo: int, hi: int)
    requires Sorting.Sorted(s, FromLeq) && 0 <= lo < hi < |s| && !Collides(s[lo], s[lo + 1])
    ensures EndsBefore(s[lo].range, s[hi].range)
  {
    assert lo + 1 == hi || FromLeq(s[lo + 1], s[hi]);
  }

  lemma UnreportedIsDisjoint(ranges: seq<Range>)
    requires FirstOverlap(ranges).None?
    ensures Disjoint(ranges)
  {
    var s := Sorting.SortBy(Enumerated(ranges), FromLeq);
    SortedEnumeration(ranges);
    FirstCollisionFound(s);
    forall i, j | 0 <= i < j < |ranges|
      ensures !Overlap(ranges[i], ranges[j])
    {
      var p := PositionOf(ranges, i);
      var q := PositionOf(ranges, j);
      if p < q {
        LaterIsDisjoint(s, p, q);
      } else {
        LaterIsDisjoint(s, q, p);
      }
    }
  }

  /** Comparing neighbours after sorting misses no overlap: nothing is reported exactly when the
      ranges are pairwise disjoint. */
  lemma NothingReportedMeansDisjoint(ranges: seq<Range>)
    ensures FirstOverlap(ranges).None? ==> Disjoint(ranges)
    ensures Disjoint(ranges) && (forall i :: 0 <= i < |ranges| ==> Proper(ranges[i])) ==> FirstOverlap(ranges).None?
  {
    hide FirstOverlap;
    if FirstOverlap(ranges).None? {
      UnreportedIsDisjoint(ranges);
    } else if forall i :: 0 <= i < |ranges| ==> Proper(ranges[i]) {
      ReportedPairOverlaps(ranges);
      var (i, j) := FirstOverlap(ranges).value;
      assert Overlap(ranges[Min(i, j)], ranges[Max(i, j)]);
    }
  }
}
