/** Querying a universe of membership spells: its members on a date and its changes between dates. */
module Universe {
  import opened Domain
  import opened Ranges
  import opened Records
  import Sorting

  /** A membership spell; the fact recorded is its provenance. */
  type Membership = Record<string>

  // ----- knowledge filter

  predicate Believed(r: Membership, asOf: Option<Instant>) {
    match asOf
    case None => Current(r)
    case Some(at) => SeenAt(r, at)
  }

  function VisibleAsOf(rows: seq<Membership>, asOf: Option<Instant>): (v: seq<Membership>)
    ensures forall r :: r in v <==> r in rows && Believed(r, asOf)
  {
    if rows == [] then []
    else if Believed(rows[0], asOf) then [rows[0]] + VisibleAsOf(rows[1..], asOf)
    else VisibleAsOf(rows[1..], asOf)
  }

  // ----- members on a date

  datatype QueryError = NoCoverage(requested: Date)

  function InForceOn(rows: seq<Membership>, on: Date): set<SecurityId> {
    set r | r in rows && InForce(r, on) :: r.sid
  }

  /** Some spell has begun by `on`. */
  ghost predicate CoverageBy(rows: seq<Membership>, on: Date) {
    exists r :: r in rows && r.validFrom <= on
  }

  function FirstStart(rows: seq<Membership>): (d: Date)
    requires rows != []
    ensures forall r :: r in rows ==> d <= r.validFrom
    ensures exists r :: r in rows && r.validFrom == d
  {
    if |rows| == 1 then
      assert rows[0] in rows;
      rows[0].validFrom
    else
      var rest := FirstStart(rows[1..]);
      assert rows[0] in rows;
      Min(rows[0].validFrom, rest)
  }

  function MembersOf(rows: seq<Membership>, on: Date, asOf: Option<Instant>): (m: Result<set<SecurityId>, QueryError>)
    ensures m.Success? <==> CoverageBy(VisibleAsOf(rows, asOf), on)
    ensures m.Success? ==> forall s :: s in m.value <==> exists r :: r in rows && Believed(r, asOf) && r.sid == s && InForce(r, on)
  {
    var visible := VisibleAsOf(rows, asOf);
    if visible == [] || on < FirstStart(visible) then Failure(NoCoverage(on)) else Success(InForceOn(visible, on))
  }

  lemma {:induction false} VisibleWithout(pre: seq<Membership>, late: Membership, post: seq<Membership>, asOf: Option<Instant>)
    requires !Believed(late, asOf)
    ensures VisibleAsOf(pre + [late] + post, asOf) == VisibleAsOf(pre + post, asOf)
  {
    if pre == [] {
      assert [] + [late] + post == [late] + post && [] + post == post;
    } else {
      assert (pre + [late] + post)[1..] == pre[1..] + [late] + post && (pre + post)[1..] == pre[1..] + post;
      VisibleWithout(pre[1..], late, post, asOf);
    }
  }

  /** A membership recorded after the knowledge instant changes no answer given at it, whatever dates
      it covers. */
  lemma LaterRowUnseen(pre: seq<Membership>, late: Membership, post: seq<Membership>, on: Date, at: Instant)
    requires late.recordedAt.Some? && late.recordedAt.value > at
    ensures MembersOf(pre + [late] + post, on, Some(at)) == MembersOf(pre + post, on, Some(at))
  {
    VisibleWithout(pre, late, post, Some(at));
  }

  lemma {:induction false} VisibleWith(pre: seq<Membership>, r: Membership, post: seq<Membership>, asOf: Option<Instant>)
    requires Believed(r, asOf)
    ensures VisibleAsOf(pre + [r] + post, asOf) == VisibleAsOf(pre, asOf) + [r] + VisibleAsOf(post, asOf)
  {
    if pre == [] {
      assert ([] + [r] + post)[1..] == post;
    } else {
      assert (pre + [r] + post)[1..] == pre[1..] + [r] + post;
      VisibleWith(pre[1..], r, post, asOf);
    }
  }

  /** A membership counts by its security and its dates alone. */
  lemma SameSpells(a: seq<Membership>, b: Membership, c: Membership, d: seq<Membership>)
    requires RangeOf(b) == RangeOf(c) && b.sid == c.sid
    ensures FirstStart(a + [b] + d) == FirstStart(a + [c] + d)
    ensures forall on :: InForceOn(a + [b] + d, on) == InForceOn(a + [c] + d, on)
  {
    StartsNoEarlier(a, b, c, d);
    StartsNoEarlier(a, c, b, d);
    hide FirstStart;
    forall on
      ensures InForceOn(a + [b] + d, on) == InForceOn(a + [c] + d, on)
    {
      forall s
        ensures s in InForceOn(a + [b] + d, on) <==> s in InForceOn(a + [c] + d, on)
      {
        InForceAmong(a, b, d, on, s);
        InForceAmong(a, c, d, on, s);
      }
    }
  }

  lemma StartsNoEarlier(a: seq<Membership>, b: Membership, c: Membership, d: seq<Membership>)
    requires b.validFrom == c.validFrom
    ensures FirstStart(a + [b] + d) <= FirstStart(a + [c] + d)
  {
    var x, y := a + [b] + d, a + [c] + d;
    var r :| r in y && r.validFrom == FirstStart(y);
    assert r in a || r == c || r in d;
    assert x[|a|] == b;
    assert r == c || r in x;
  }

  lemma InForceAmong(a: seq<Membership>, b: Membership, d: seq<Membership>, on: Date, s: SecurityId)
    ensures s in InForceOn(a + [b] + d, on) <==> s in InForceOn(a, on) || (b.sid == s && InForce(b, on)) || s in InForceOn(d, on)
  {
    var all := a + [b] + d;
    assert forall r :: r in all <==> r in a || r == b || r in d;
  }

  /** Superseding a current membership at an instant changes no answer given before it; from then on it
      is as if the membership were not there. */
  lemma SupersededRowUnseen(pre: seq<Membership>, r: Membership, post: seq<Membership>, k: Instant, on: Date, at: Instant)
    requires Current(r)
    ensures MembersOf(pre + [SupersededFrom(r, k)] + post, on, Some(at))
         == if at < k then MembersOf(pre + [r] + post, on, Some(at)) else MembersOf(pre + post, on, Some(at))
  {
    var s := SupersededFrom(r, k);
    if Believed(s, Some(at)) {
      VisibleWith(pre, s, post, Some(at));
      VisibleWith(pre, r, post, Some(at));
      SameSpells(VisibleAsOf(pre, Some(at)), s, r, VisibleAsOf(post, Some(at)));
    } else {
      VisibleWithout(pre, s, post, Some(at));
      if at < k {
        VisibleWithout(pre, r, post, Some(at));
      }
    }
  }

  // ----- changes between dates

  datatype ChangeKind = Added | Removed

  datatype MembershipChange = MembershipChange(sid: SecurityId, change: ChangeKind, effective: Date, source: string)

  /** Additions and removals a spell brings about in (start, end]. */
  function ChangesOf(r: Membership, start: Date, end: Date): seq<MembershipChange> {
    (if start < r.validFrom <= end then [MembershipChange(r.sid, Added, r.validFrom, r.fact)] else [])
    + (if r.validTo.Some? && start < r.validTo.value <= end then [MembershipChange(r.sid, Removed, r.validTo.value, r.fact)] else [])
  }

  function AllChanges(rows: seq<Membership>, start: Date, end: Date): seq<MembershipChange> {
    if rows == [] then [] else AllChanges(rows[..|rows| - 1], start, end) + ChangesOf(rows[|rows| - 1], start, end)
  }

  lemma {:induction false} AllChangesExactly(rows: seq<Membership>, start: Date, end: Date, c: MembershipChange)
    ensures c in AllChanges(rows, start, end) <==> exists r :: r in rows && c in ChangesOf(r, start, end)
  {
    if rows != [] {
      var front := rows[..|rows| - 1];
      AllChangesExactly(front, start, end, c);
      assert rows == front + [rows[|rows| - 1]];
    }
  }

  /** By date, additions before removals, then by security. */
  predicate ChangeLeq(a: MembershipChange, b: MembershipChange) {
    a.effective < b.effective ||
    (a.effective == b.effective && ((a.change == Added && b.change == Removed) || (a.change == b.change && a.sid <= b.sid)))
  }

  function ChangesBetween(rows: seq<Membership>, start: Date, end: Date, asOf: Option<Instant>): seq<MembershipChange> {
    Sorting.SortBy(AllChanges(VisibleAsOf(rows, asOf), start, end), ChangeLeq)
  }

  method MembershipChanges(rows: seq<Membership>, start: Date, end: Date, asOf: Option<Instant>)
    returns (changes: seq<MembershipChange>)
    ensures changes == ChangesBetween(rows, start, end, asOf)
    ensures Sorting.Sorted(changes, ChangeLeq)
    ensures multiset(changes) == multiset(AllChanges(VisibleAsOf(rows, asOf), start, end))
  {
    var visible := VisibleAsOf(rows, asOf);
    changes := [];
    for i := 0 to |visible|
      invariant changes == AllChanges(visible[..i], start, end)
    {
      hide VisibleAsOf;
      var r := visible[i];
      assert visible[..i + 1][..i] == visible[..i];
      assert AllChanges(visible[..i + 1], start, end) == AllChanges(visible[..i], start, end) + ChangesOf(r, start, end);
      hide AllChanges;
      if start < r.validFrom <= end {
        changes := changes + [MembershipChange(r.sid, Added, r.validFrom, r.fact)];
      }
      if r.validTo.Some? && start < r.validTo.value <= end {
        changes := changes + [MembershipChange(r.sid, Removed, r.validTo.value, r.fact)];
      }
    }
    assert visible[..|visible|] == visible;
    Sorting.SortedSortBy(changes, ChangeLeq);
    changes := Sorting.SortBy(changes, ChangeLeq);
  }

  // ----- folding the changes

  function Applied(s: set<SecurityId>, c: MembershipChange): set<SecurityId> {
    match c.change
    case Added => s + {c.sid}
    case Removed => s - {c.sid}
  }

  function AppliedAll(s: set<SecurityId>, cs: seq<MembershipChange>): set<SecurityId> {
    if cs == [] then s else Applied(AppliedAll(s, cs[..|cs| - 1]), cs[|cs| - 1])
  }

  predicate IsChange(c: MembershipChange, x: SecurityId, kind: ChangeKind) {
    c.sid == x && c.change == kind
  }

  ghost predicate Untouched(cs: seq<MembershipChange>, x: SecurityId) {
    forall c :: c in cs ==> c.sid != x
  }

  /** Every removal of `x` is on an earlier day. */
  ghost predicate RemovedBefore(cs: seq<MembershipChange>, x: SecurityId, day: Date) {
    forall c :: c in cs && IsChange(c, x, Removed) ==> c.effective < day
  }

  /** An addition of `x` comes on a later day than every removal of `x`. */
  ghost predicate AddedLast(cs: seq<MembershipChange>, x: SecurityId) {
    exists a :: a in cs && IsChange(a, x, Added) && RemovedBefore(cs, x, a.effective)
  }

  lemma LastDecides(front: seq<MembershipChange>, z: MembershipChange, x: SecurityId)
    requires Sorting.Sorted(front + [z], ChangeLeq) && z.sid == x
    ensures AddedLast(front + [z], x) <==> z.change == Added
  {
    var cs := front + [z];
    assert cs[|front|] == z;
    forall c | c in front
      ensures ChangeLeq(c, z)
    {
      var i :| 0 <= i < |front| && front[i] == c;
      assert cs[i] == c;
    }
    if z.change == Added {
      assert IsChange(z, x, Added) && RemovedBefore(cs, x, z.effective);
    } else {
      assert IsChange(z, x, Removed);
    }
  }

  lemma OtherLast(front: seq<MembershipChange>, z: MembershipChange, x: SecurityId)
    requires z.sid != x
    ensures AddedLast(front + [z], x) <==> AddedLast(front, x)
    ensures Untouched(front + [z], x) <==> Untouched(front, x)
  {
    var cs := front + [z];
    assert forall c :: c in cs <==> c in front || c == z;
    if AddedLast(front, x) {
      var a :| a in front && IsChange(a, x, Added) && RemovedBefore(front, x, a.effective);
      assert a in cs && RemovedBefore(cs, x, a.effective);
    }
    if AddedLast(cs, x) {
      var a :| a in cs && IsChange(a, x, Added) && RemovedBefore(cs, x, a.effective);
      assert a in front && RemovedBefore(front, x, a.effective);
    }
  }

  /** Whoever folds sorted changes ends with the untouched members and those last added. */
  lemma {:induction false} FoldedMember(s: set<SecurityId>, cs: seq<MembershipChange>, x: SecurityId)
    requires Sorting.Sorted(cs, ChangeLeq)
    ensures x in AppliedAll(s, cs) <==> AddedLast(cs, x) || (x in s && Untouched(cs, x))
    decreases |cs|
  {
    if cs != [] {
      var front, z := cs[..|cs| - 1], cs[|cs| - 1];
      assert cs == front + [z];
      FoldedMember(s, front, x);
      assert AppliedAll(s, cs) == Applied(AppliedAll(s, front), z);
      hide AppliedAll;
      hide AddedLast;
      if z.sid == x {
        LastDecides(front, z, x);
        assert z in cs;
      } else {
        OtherLast(front, z, x);
      }
    } else {
      assert !AddedLast(cs, x);
    }
  }

  // ----- when folding the changes over members(start) gives members(end)

  predicate OnePlace(a: Membership, b: Membership) {
    a.sid == b.sid && a != b ==> !Overlap(RangeOf(a), RangeOf(b))
  }

  /** Proper spells, and those of one security share no date. */
  ghost predicate Spells(rows: seq<Membership>) {
    && (forall r :: r in rows ==> Proper(RangeOf(r)))
    && (forall a, b :: a in rows && b in rows ==> OnePlace(a, b))
  }

  predicate Resumes(a: Membership, b: Membership, start: Date, end: Date) {
    && a.sid == b.sid && a.validTo == Some(b.validFrom)
    && start < b.validFrom && InForce(b, end)
  }

  /** `x` is a member at the end through a spell that began, after the start, on the very day an
      earlier spell of its ended. */
  ghost predicate ResumedSameDay(rows: seq<Membership>, x: SecurityId, start: Date, end: Date) {
    exists a, b :: a in rows && b in rows && b.sid == x && Resumes(a, b, start, end)
  }

  /** The spell a listed change comes from. */
  lemma OriginOf(rows: seq<Membership>, start: Date, end: Date, cs: seq<MembershipChange>, c: MembershipChange)
    returns (r: Membership)
    requires Listed(rows, start, end, cs) && c in cs
    ensures r in rows && r.sid == c.sid && start < c.effective <= end
    ensures if c.change == Added then r.validFrom == c.effective else r.validTo == Some(c.effective)
  {
    Sorting.SameElements(cs, AllChanges(rows, start, end));
    AllChangesExactly(rows, start, end, c);
    r :| r in rows && c in ChangesOf(r, start, end);
  }

  ghost predicate Listed(rows: seq<Membership>, start: Date, end: Date, cs: seq<MembershipChange>) {
    multiset(cs) == multiset(AllChanges(rows, start, end))
  }

  lemma AdditionListed(rows: seq<Membership>, start: Date, end: Date, cs: seq<MembershipChange>, r: Membership)
    returns (c: MembershipChange)
    requires Listed(rows, start, end, cs) && r in rows && start < r.validFrom <= end
    ensures c in cs && IsChange(c, r.sid, Added) && c.effective == r.validFrom
  {
    c := MembershipChange(r.sid, Added, r.validFrom, r.fact);
    Sorting.SameElements(cs, AllChanges(rows, start, end));
    AllChangesExactly(rows, start, end, c);
    assert c in ChangesOf(r, start, end);
  }

  lemma RemovalListed(rows: seq<Membership>, start: Date, end: Date, cs: seq<MembershipChange>, r: Membership)
    returns (c: MembershipChange)
    requires Listed(rows, start, end, cs) && r in rows
    requires r.validTo.Some? && start < r.validTo.value <= end
    ensures c in cs && IsChange(c, r.sid, Removed) && c.effective == r.validTo.value
  {
    c := MembershipChange(r.sid, Removed, r.validTo.value, r.fact);
    Sorting.SameElements(cs, AllChanges(rows, start, end));
    AllChangesExactly(rows, start, end, c);
    assert c in ChangesOf(r, start, end);
  }

  /** A member at the end is folded in unless it resumed on the day it left. */
  lemma MemberIsFolded(rows: seq<Membership>, start: Date, end: Date, cs: seq<MembershipChange>, b: Membership)
    requires Spells(rows) && b in rows && InForce(b, end) && start <= end
    requires Listed(rows, start, end, cs) && !ResumedSameDay(rows, b.sid, start, end)
    ensures AddedLast(cs, b.sid) || (b.sid in InForceOn(rows, start) && Untouched(cs, b.sid))
  {
    hide Listed;
    if start < b.validFrom {
      var add := AdditionListed(rows, start, end, cs, b);
      forall c | c in cs && IsChange(c, b.sid, Removed)
        ensures c.effective < add.effective
      {
        var r := OriginOf(rows, start, end, cs, c);
        assert OnePlace(r, b);
        assert !Resumes(r, b, start, end);
      }
      assert RemovedBefore(cs, b.sid, add.effective);
    } else {
      forall c | c in cs
        ensures c.sid != b.sid
      {
        var r := OriginOf(rows, start, end, cs, c);
        assert OnePlace(r, b);
      }
      assert InForce(b, start);
    }
  }

  /** A spell that starts on a given day outranks every earlier spell still in force then. */
  lemma StartsAlone(rows: seq<Membership>, r: Membership, q: Membership)
    requires Spells(rows) && r in rows && q in rows && r.sid == q.sid
    requires q.validFrom < r.validFrom
    ensures q.validTo.Some? && q.validTo.value <= r.validFrom
  {
    assert OnePlace(r, q);
  }

  lemma LastAddedIsMember(rows: seq<Membership>, start: Date, end: Date, cs: seq<MembershipChange>, x: SecurityId)
    requires Spells(rows) && start <= end && Listed(rows, start, end, cs) && AddedLast(cs, x)
    ensures x in InForceOn(rows, end) && !ResumedSameDay(rows, x, start, end)
  {
    hide Listed;
    var a :| a in cs && IsChange(a, x, Added) && RemovedBefore(cs, x, a.effective);
    var r := OriginOf(rows, start, end, cs, a);
    assert Proper(RangeOf(r));
    if !InForce(r, end) {
      var c := RemovalListed(rows, start, end, cs, r);
      assert false;
    }
    if ResumedSameDay(rows, x, start, end) {
      var p, q :| p in rows && q in rows && q.sid == x && Resumes(p, q, start, end);
      hide Spells;
      var c := RemovalListed(rows, start, end, cs, p);
      assert q.validFrom < r.validFrom;
      StartsAlone(rows, r, q);
      assert false;
    }
  }

  lemma UntouchedIsMember(rows: seq<Membership>, start: Date, end: Date, cs: seq<MembershipChange>, x: SecurityId)
    requires Spells(rows) && start <= end && Listed(rows, start, end, cs)
    requires x in InForceOn(rows, start) && Untouched(cs, x)
    ensures x in InForceOn(rows, end) && !ResumedSameDay(rows, x, start, end)
  {
    hide Listed;
    var r :| r in rows && r.sid == x && InForce(r, start);
    if !InForce(r, end) {
      var c := RemovalListed(rows, start, end, cs, r);
      assert false;
    }
    if ResumedSameDay(rows, x, start, end) {
      var p, q :| p in rows && q in rows && q.sid == x && Resumes(p, q, start, end);
      var c := AdditionListed(rows, start, end, cs, q);
      assert false;
    }
  }

  /** Applying the changes in their listed order to the members at the start gives exactly the
      members at the end that did not resume on the day they left. */
  lemma FoldedMembers(rows: seq<Membership>, start: Date, end: Date, asOf: Option<Instant>, x: SecurityId)
    requires start <= end && Spells(VisibleAsOf(rows, asOf))
    ensures var v := VisibleAsOf(rows, asOf);
            x in AppliedAll(InForceOn(v, start), ChangesBetween(rows, start, end, asOf))
            <==> x in InForceOn(v, end) && !ResumedSameDay(v, x, start, end)
  {
    var v := VisibleAsOf(rows, asOf);
    var cs := ChangesBetween(rows, start, end, asOf);
    Sorting.SortedSortBy(AllChanges(v, start, end), ChangeLeq);
    hide AddedLast;
    hide AppliedAll;
    FoldedMember(InForceOn(v, start), cs, x);
    if x in InForceOn(v, end) && !ResumedSameDay(v, x, start, end) {
      var b :| b in v && b.sid == x && InForce(b, end);
      MemberIsFolded(v, start, end, cs, b);
    }
    if AddedLast(cs, x) {
      LastAddedIsMember(v, start, end, cs, x);
    } else if x in AppliedAll(InForceOn(v, start), cs) {
      UntouchedIsMember(v, start, end, cs, x);
    }
  }

  /** The documented reproduction of members(end) holds exactly when no member at the end resumed on
      the day it left. */
  lemma ChangesReproduceExactlyWhen(rows: seq<Membership>, start: Date, end: Date, asOf: Option<Instant>)
    requires start <= end && Spells(VisibleAsOf(rows, asOf))
    ensures var v := VisibleAsOf(rows, asOf);
            AppliedAll(InForceOn(v, start), ChangesBetween(rows, start, end, asOf)) == InForceOn(v, end)
            <==> forall a, b :: a in v && b in v ==> !Resumes(a, b, start, end)
  {
    var v := VisibleAsOf(rows, asOf);
    var folded := AppliedAll(InForceOn(v, start), ChangesBetween(rows, start, end, asOf));
    hide AppliedAll;
    hide ChangesBetween;
    hide VisibleAsOf;
    if a, b :| a in v && b in v && Resumes(a, b, start, end) {
      assert ResumedSameDay(v, b.sid, start, end);
      assert b.sid in InForceOn(v, end);
      FoldedMembers(rows, start, end, asOf, b.sid);
    } else {
      forall x
        ensures x in folded <==> x in InForceOn(v, end)
      {
        FoldedMembers(rows, start, end, asOf, x);
        assert !ResumedSameDay(v, x, start, end);
      }
    }
  }

  /** A security whose second spell starts on the day the first ends is lost by folding. */
  lemma TouchingSpellsDoNotReplay()
    ensures exists rows: seq<Membership>, start: Date, end: Date ::
              Spells(VisibleAsOf(rows, None)) && start <= end
              && AppliedAll(InForceOn(VisibleAsOf(rows, None), start), ChangesBetween(rows, start, end, None))
                 != InForceOn(VisibleAsOf(rows, None), end)
  {
    var a: Membership := Record(1, 0, Some(5), None, None, "demoted");
    var b: Membership := Record(1, 5, None, None, None, "promoted");
    var rows := [a, b];
    var v := VisibleAsOf(rows, None);
    assert a in rows && b in rows;
    assert Spells(v);
    assert Resumes(a, b, 0, 10);
    ChangesReproduceExactlyWhen(rows, 0, 10, None);
  }

  // ----- the check on stored memberships

  function SpellsOf(rows: seq<Membership>, sid: SecurityId): (s: seq<Range>)
    ensures forall r :: r in rows && Current(r) && r.sid == sid ==> RangeOf(r) in s
  {
    if rows == [] then []
    else if Current(rows[0]) && rows[0].sid == sid then [RangeOf(rows[0])] + SpellsOf(rows[1..], sid)
    else SpellsOf(rows[1..], sid)
  }

  ghost predicate Checked(rows: seq<Membership>) {
    forall sid :: FirstOverlap(SpellsOf(rows, sid)).None?
  }

  lemma {:induction false} TwoSpells(rows: seq<Membership>, a: Membership, b: Membership)
    requires a in rows && b in rows && a != b && a.sid == b.sid && Current(a) && Current(b)
    requires Disjoint(SpellsOf(rows, a.sid))
    ensures !Overlap(RangeOf(a), RangeOf(b))
  {
    var s, rest := SpellsOf(rows, a.sid), SpellsOf(rows[1..], a.sid);
    if rows[0] == a || rows[0] == b {
      var other := if rows[0] == a then b else a;
      assert other in rows[1..];
      var j :| 0 <= j < |rest| && rest[j] == RangeOf(other);
      assert s[0] == RangeOf(rows[0]) && s[j + 1] == RangeOf(other);
    } else {
      forall i, j | 0 <= i < j < |rest|
        ensures !Overlap(rest[i], rest[j])
      {
        if s != rest {
          assert s[i + 1] == rest[i] && s[j + 1] == rest[j];
        }
      }
      TwoSpells(rows[1..], a, b);
    }
  }

  /** Stored memberships that pass the overlap check satisfy what the replay theorem needs. */
  lemma CheckedRowsAreSpells(rows: seq<Membership>)
    requires Checked(rows) && forall r :: r in rows ==> Proper(RangeOf(r))
    ensures Spells(VisibleAsOf(rows, None))
  {
    hide FirstOverlap;
    var v := VisibleAsOf(rows, None);
    forall a, b | a in v && b in v
      ensures OnePlace(a, b)
    {
      if a.sid == b.sid && a != b {
        var s := SpellsOf(rows, a.sid);
        assert FirstOverlap(s).None?;
        NothingReportedMeansDisjoint(s);
        TwoSpells(rows, a, b);
      }
    }
  }
}

/** The query object, which caches member sets per dataset version, date and knowledge time. */
module UniverseQueries {
  import opened Domain
  import opened Universe

  type Version = int

  type Asked = (Version, Date, Option<Instant>)

  class UniverseQuery {
    /** What storage holds under each version of the dataset. */
    const stored: Version -> seq<Membership>
    var records: map<Version, seq<Membership>>
    var known: map<Asked, set<SecurityId>>

    /** Whatever is cached is what would be computed afresh. */
    ghost predicate Valid()
      reads this
    {
      && (forall v :: v in records ==> records[v] == stored(v))
      && (forall q :: q in known ==> MembersOf(stored(q.0), q.1, q.2) == Success(known[q]))
    }

    constructor (stored: Version -> seq<Membership>)
      ensures Valid() && this.stored == stored
    {
      this.stored := stored;
      records := map[];
      known := map[];
    }

    method Load(version: Version) returns (rows: seq<Membership>)
      requires Valid()
      modifies this`records
      ensures Valid() && rows == stored(version)
    {
      if version !in records {
        records := records[version := stored(version)];
      }
      rows := records[version];
    }

    /** Answers from the cache are the answers of the definition, for every version, and a refused
        question leaves nothing cached. */
    method Members(version: Version, on: Date, asOf: Option<Instant>) returns (r: Result<set<SecurityId>, QueryError>)
      requires Valid()
      modifies this
      ensures Valid() && r == MembersOf(stored(version), on, asOf)
      ensures r.Failure? ==> known == old(known)
    {
      var rows := Load(version);
      if (version, on, asOf) !in known {
        var members :- MembersOf(rows, on, asOf);
        known := known[(version, on, asOf) := members];
      }
      r := Success(known[(version, on, asOf)]);
    }
  }
}
