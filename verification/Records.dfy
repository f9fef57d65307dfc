/** Bitemporal records:
    event-time ranges with knowledge-time stamps, revised and viewed. */
module Records {
  import opened Domain
  import opened Ranges

  /** True over [validFrom, validTo); believed from `recordedAt` until `supersededAt`. A missing
      `recordedAt` means always known. */
  datatype Record<P> = Record(
    sid: SecurityId, validFrom: Date, validTo: Option<Date>,
    recordedAt: Option<Instant>, supersededAt: Option<Instant>, fact: P)

  predicate Current<P>(r: Record<P>) {
    r.supersededAt.None?
  }

  function RangeOf<P>(r: Record<P>): Range {
    Range(r.validFrom, r.validTo)
  }

  predicate InForce<P>(r: Record<P>, on: Date) {
    Contains(RangeOf(r), on)
  }

  /** The single-record rules a revalidated copy must pass. */
  predicate WellFormed<P>(r: Record<P>) {
    && Proper(RangeOf(r))
    && (r.recordedAt.Some? && r.supersededAt.Some? ==> r.recordedAt.value < r.supersededAt.value)
  }

  function Cleared<P>(r: Record<P>): Record<P> {
    Record(r.sid, r.validFrom, r.validTo, r.recordedAt, None, r.fact)
  }

  function SupersededFrom<P>(r: Record<P>, k: Instant): Record<P> {
    Record(r.sid, r.validFrom, r.validTo, r.recordedAt, Some(k), r.fact)
  }

  function RecordedFrom<P>(r: Record<P>, k: Instant): Record<P> {
    Record(r.sid, r.validFrom, r.validTo, Some(k), r.supersededAt, r.fact)
  }

  predicate SeenAt<P>(r: Record<P>, at: Instant) {
    && (r.recordedAt.None? || r.recordedAt.value <= at)
    && (r.supersededAt.None? || r.supersededAt.value > at)
  }

  /** The records believed at `at`, each as the current record it then was. */
  function Visible<P>(rs: seq<Record<P>>, at: Instant): seq<Record<P>> {
    if rs == [] then []
    else if SeenAt(rs[0], at) then [Cleared(rs[0])] + Visible(rs[1..], at)
    else Visible(rs[1..], at)
  }

  function CurrentOnly<P>(rs: seq<Record<P>>): seq<Record<P>> {
    if rs == [] then []
    else if Current(rs[0]) then [rs[0]] + CurrentOnly(rs[1..])
    else CurrentOnly(rs[1..])
  }

  // ----- revision: one optional replacement per record

  type Revisions<P> = seq<Option<Record<P>>>

  function Superseded<P>(rs: seq<Record<P>>, revs: Revisions<P>, k: Instant): seq<Record<P>>
    requires |rs| == |revs|
  {
    if rs == [] then []
    else [if revs[0].Some? then SupersededFrom(rs[0], k) else rs[0]] + Superseded(rs[1..], revs[1..], k)
  }

  function Replacements<P>(revs: Revisions<P>, k: Instant): seq<Record<P>> {
    if revs == [] then []
    else if revs[0].Some? then [RecordedFrom(revs[0].value, k)] + Replacements(revs[1..], k)
    else Replacements(revs[1..], k)
  }

  function Overwritten<P>(rs: seq<Record<P>>, revs: Revisions<P>): seq<Record<P>>
    requires |rs| == |revs|
  {
    if rs == [] then []
    else [if revs[0].Some? then revs[0].value else rs[0]] + Overwritten(rs[1..], revs[1..])
  }

  /** Supersede and append when the knowledge time is known; replace destructively when it is not. */
  function Revise<P>(rs: seq<Record<P>>, revs: Revisions<P>, knowledge: Option<Instant>): seq<Record<P>>
    requires |rs| == |revs|
  {
    match knowledge
    case None => Overwritten(rs, revs)
    case Some(k) => Superseded(rs, revs, k) + Replacements(revs, k)
  }

  function Stamp<P>(r: Record<P>, knowledge: Option<Instant>): Record<P> {
    if knowledge.None? then r else RecordedFrom(r, knowledge.value)
  }

  predicate AllWellFormed<P>(rs: seq<Record<P>>) {
    forall i :: 0 <= i < |rs| ==> WellFormed(rs[i])
  }

  /** Only current records are ever revised, and a revision keeps its security and stays current. */
  ghost predicate Revises<P>(rs: seq<Record<P>>, revs: Revisions<P>) {
    && |rs| == |revs|
    && forall i :: 0 <= i < |rs| && revs[i].Some? ==>
         Current(rs[i]) && Current(revs[i].value) && revs[i].value.sid == rs[i].sid
         && revs[i].value.recordedAt == rs[i].recordedAt
  }

  // ----- what a revision known at k leaves visible

  lemma {:induction false} VisibleConcat<P>(a: seq<Record<P>>, b: seq<Record<P>>, at: Instant)
    ensures Visible(a + b, at) == Visible(a, at) + Visible(b, at)
  {
    if a == [] {
      assert a + b == b;
    } else {
      assert (a + b)[1..] == a[1..] + b;
      VisibleConcat(a[1..], b, at);
    }
  }

  lemma {:induction false} UnseenReplacements<P>(revs: Revisions<P>, k: Instant, at: Instant)
    requires at < k
    ensures Visible(Replacements(revs, k), at) == []
  {
    if revs != [] {
      UnseenReplacements(revs[1..], k, at);
      if revs[0].Some? {
        var r := RecordedFrom(revs[0].value, k);
        assert ([r] + Replacements(revs[1..], k))[1..] == Replacements(revs[1..], k);
      }
    }
  }

  lemma {:induction false} SupersededLooksTheSame<P>(rs: seq<Record<P>>, revs: Revisions<P>, k: Instant, at: Instant)
    requires Revises(rs, revs) && at < k
    ensures Visible(Superseded(rs, revs, k), at) == Visible(rs, at)
  {
    if rs != [] {
      SupersededLooksTheSame(rs[1..], revs[1..], k, at);
      var head := if revs[0].Some? then SupersededFrom(rs[0], k) else rs[0];
      assert ([head] + Superseded(rs[1..], revs[1..], k))[1..] == Superseded(rs[1..], revs[1..], k);
      assert revs[0].Some? ==> Current(rs[0]);
    }
  }

  /** Before it is known, a revision (with a new record) cannot be seen at all: same records, same
      order, same stamps. */
  lemma RevisionUnseenBefore<P>(rs: seq<Record<P>>, revs: Revisions<P>, added: seq<Record<P>>, k: Instant, at: Instant)
    requires Revises(rs, revs) && at < k
    requires forall r :: r in added ==> r.recordedAt == Some(k)
    ensures Visible(Revise(rs, revs, Some(k)) + added, at) == Visible(rs, at)
  {
    VisibleConcat(Superseded(rs, revs, k) + Replacements(revs, k), added, at);
    VisibleConcat(Superseded(rs, revs, k), Replacements(revs, k), at);
    SupersededLooksTheSame(rs, revs, k, at);
    UnseenReplacements(revs, k, at);
    UnseenAdded(added, k, at);
  }

  lemma {:induction false} UnseenAdded<P>(added: seq<Record<P>>, k: Instant, at: Instant)
    requires at < k && forall r :: r in added ==> r.recordedAt == Some(k)
    ensures Visible(added, at) == []
  {
    if added != [] {
      assert added[0] in added;
      UnseenAdded(added[1..], k, at);
    }
  }

  // ----- once everything is known

  /** Every stamp is at or before `k`. */
  ghost predicate KnownBy<P>(rs: seq<Record<P>>, k: Instant) {
    forall r :: r in rs ==>
      && (r.recordedAt.Some? ==> r.recordedAt.value <= k)
      && (r.supersededAt.Some? ==> r.supersededAt.value <= k)
  }

  lemma {:induction false} VisibleIsCurrent<P>(rs: seq<Record<P>>, k: Instant, at: Instant)
    requires KnownBy(rs, k) && k <= at
    ensures Visible(rs, at) == CurrentOnly(rs)
  {
    if rs != [] {
      assert rs[0] in rs;
      VisibleIsCurrent(rs[1..], k, at);
      assert Current(rs[0]) ==> Cleared(rs[0]) == rs[0];
    }
  }

  lemma {:induction false} CurrentOnlyTwice<P>(rs: seq<Record<P>>)
    ensures CurrentOnly(CurrentOnly(rs)) == CurrentOnly(rs)
    ensures forall r :: r in CurrentOnly(rs) <==> r in rs && Current(r)
  {
    if rs != [] {
      CurrentOnlyTwice(rs[1..]);
      assert rs == [rs[0]] + rs[1..];
      if Current(rs[0]) {
        assert ([rs[0]] + CurrentOnly(rs[1..]))[1..] == CurrentOnly(rs[1..]);
      }
    }
  }

  lemma {:induction false} SupersededKnownBy<P>(rs: seq<Record<P>>, revs: Revisions<P>, before: Instant, k: Instant)
    requires |rs| == |revs| && KnownBy(rs, before) && before <= k
    ensures KnownBy(Superseded(rs, revs, k), k)
  {
    if rs != [] {
      assert rs[0] in rs;
      assert forall r :: r in rs[1..] ==> r in rs;
      SupersededKnownBy(rs[1..], revs[1..], before, k);
    }
  }

  lemma {:induction false} ReplacementsKnownBy<P>(revs: Revisions<P>, k: Instant)
    requires forall i :: 0 <= i < |revs| && revs[i].Some? ==> Current(revs[i].value)
    ensures forall r :: r in Replacements(revs, k) ==> r.recordedAt == Some(k) && Current(r)
  {
    if revs != [] {
      ReplacementsKnownBy(revs[1..], k);
    }
  }

  lemma RevisedKnownBy<P>(rs: seq<Record<P>>, revs: Revisions<P>, added: seq<Record<P>>, before: Instant, k: Instant)
    requires Revises(rs, revs) && KnownBy(rs, before) && before <= k
    requires forall r :: r in added ==> r.recordedAt == Some(k) && Current(r)
    ensures KnownBy(Revise(rs, revs, Some(k)) + added, k)
  {
    SupersededKnownBy(rs, revs, before, k);
    ReplacementsKnownBy(revs, k);
  }

  // ----- superseding against overwriting

  function Erased<P>(r: Record<P>): Record<P> {
    Record(r.sid, r.validFrom, r.validTo, None, r.supersededAt, r.fact)
  }

  /** The records up to order and `recordedAt`. */
  ghost function Bag<P>(rs: seq<Record<P>>): multiset<Record<P>> {
    if rs == [] then multiset{} else multiset{Erased(rs[0])} + Bag(rs[1..])
  }

  /** The revisions of the current records alone. */
  function CurrentRevisions<P>(rs: seq<Record<P>>, revs: Revisions<P>): Revisions<P>
    requires |rs| == |revs|
  {
    if rs == [] then []
    else if Current(rs[0]) then [revs[0]] + CurrentRevisions(rs[1..], revs[1..])
    else CurrentRevisions(rs[1..], revs[1..])
  }

  lemma {:induction false} CurrentRevisionsLength<P>(rs: seq<Record<P>>, revs: Revisions<P>)
    requires |rs| == |revs|
    ensures |CurrentRevisions(rs, revs)| == |CurrentOnly(rs)|
  {
    if rs != [] {
      CurrentRevisionsLength(rs[1..], revs[1..]);
    }
  }

  lemma {:induction false} BagConcat<P>(a: seq<Record<P>>, b: seq<Record<P>>)
    ensures Bag(a + b) == Bag(a) + Bag(b)
  {
    if a == [] {
      assert a + b == b;
    } else {
      assert (a + b)[1..] == a[1..] + b;
      BagConcat(a[1..], b);
    }
  }

  lemma {:induction false} CurrentConcat<P>(a: seq<Record<P>>, b: seq<Record<P>>)
    ensures CurrentOnly(a + b) == CurrentOnly(a) + CurrentOnly(b)
  {
    if a == [] {
      assert a + b == b;
    } else {
      assert (a + b)[1..] == a[1..] + b;
      CurrentConcat(a[1..], b);
    }
  }

  lemma {:induction false} AllCurrent<P>(rs: seq<Record<P>>)
    requires forall r :: r in rs ==> Current(r)
    ensures CurrentOnly(rs) == rs
  {
    if rs != [] {
      assert rs[0] in rs;
      AllCurrent(rs[1..]);
    }
  }

  lemma {:induction false} SupersedeBag<P>(rs: seq<Record<P>>, revs: Revisions<P>, k: Instant)
    requires Revises(rs, revs)
    ensures |CurrentRevisions(rs, revs)| == |CurrentOnly(rs)|
    ensures Bag(CurrentOnly(Superseded(rs, revs, k))) + Bag(Replacements(revs, k))
         == Bag(Overwritten(CurrentOnly(rs), CurrentRevisions(rs, revs)))
  {
    CurrentRevisionsLength(rs, revs);
    if rs != [] {
      SupersedeBag(rs[1..], revs[1..], k);
      var head := if revs[0].Some? then SupersededFrom(rs[0], k) else rs[0];
      var tail := Superseded(rs[1..], revs[1..], k);
      assert ([head] + tail)[1..] == tail;
      assert revs[0].Some? ==> Current(rs[0]);
      if Current(rs[0]) {
        var cs, cr := CurrentOnly(rs[1..]), CurrentRevisions(rs[1..], revs[1..]);
        assert ([rs[0]] + cs)[1..] == cs && ([revs[0]] + cr)[1..] == cr;
        var kept := if revs[0].Some? then revs[0].value else rs[0];
        assert ([kept] + Overwritten(cs, cr))[1..] == Overwritten(cs, cr);
        if revs[0].Some? {
          var r := RecordedFrom(revs[0].value, k);
          assert ([r] + Replacements(revs[1..], k))[1..] == Replacements(revs[1..], k);
          assert Erased(r) == Erased(kept);
        } else {
          assert ([rs[0]] + CurrentOnly(tail))[1..] == CurrentOnly(tail);
        }
      }
    }
  }

  /** Once the revision is known, the view holds the same records as overwriting the earlier view,
      up to order and `recordedAt`. */
  lemma SupersedingMatchesOverwriting<P>(rs: seq<Record<P>>, revs: Revisions<P>, added: seq<Record<P>>, k: Instant)
    requires Revises(rs, revs)
    requires forall r :: r in added ==> Current(r)
    ensures |CurrentRevisions(rs, revs)| == |CurrentOnly(rs)|
    ensures Bag(CurrentOnly(Revise(rs, revs, Some(k)) + added))
         == Bag(Overwritten(CurrentOnly(rs), CurrentRevisions(rs, revs)) + added)
  {
    SupersedeBag(rs, revs, k);
    ReplacementsKnownBy(revs, k);
    AllCurrent(added);
    AllCurrent(Replacements(revs, k));
    CurrentConcat(Superseded(rs, revs, k) + Replacements(revs, k), added);
    CurrentConcat(Superseded(rs, revs, k), Replacements(revs, k));
    BagConcat(CurrentOnly(Superseded(rs, revs, k)) + Replacements(revs, k), added);
    BagConcat(CurrentOnly(Superseded(rs, revs, k)), Replacements(revs, k));
    BagConcat(Overwritten(CurrentOnly(rs), CurrentRevisions(rs, revs)), added);
  }

  // ----- one security's records

  function Of<P>(rs: seq<Record<P>>, sid: SecurityId): seq<Record<P>> {
    if rs == [] then []
    else if rs[0].sid == sid then [rs[0]] + Of(rs[1..], sid)
    else Of(rs[1..], sid)
  }

  lemma {:induction false} OfConcat<P>(a: seq<Record<P>>, b: seq<Record<P>>, sid: SecurityId)
    ensures Of(a + b, sid) == Of(a, sid) + Of(b, sid)
  {
    if a == [] {
      assert a + b == b;
    } else {
      assert (a + b)[1..] == a[1..] + b;
      OfConcat(a[1..], b, sid);
    }
  }

  lemma {:induction false} InOf<P>(rs: seq<Record<P>>, sid: SecurityId)
    ensures forall r :: r in Of(rs, sid) <==> r in rs && r.sid == sid
  {
    if rs != [] {
      InOf(rs[1..], sid);
      assert rs == [rs[0]] + rs[1..];
    }
  }

  lemma {:induction false} NoneOf<P>(rs: seq<Record<P>>, own: SecurityId, sid: SecurityId)
    requires sid != own && forall r :: r in rs ==> r.sid == own
    ensures Of(rs, sid) == []
  {
    if rs != [] {
      assert rs[0] in rs;
      NoneOf(rs[1..], own, sid);
    }
  }

  /** The revisions touch only one security's records. */
  ghost predicate Touches<P>(rs: seq<Record<P>>, revs: Revisions<P>, own: SecurityId) {
    |rs| == |revs| && forall i :: 0 <= i < |rs| && revs[i].Some? ==> rs[i].sid == own && revs[i].value.sid == own
  }

  lemma {:induction false} OthersUntouched<P>(rs: seq<Record<P>>, revs: Revisions<P>, k: Instant, own: SecurityId, sid: SecurityId)
    requires Touches(rs, revs, own) && sid != own
    ensures Of(Superseded(rs, revs, k), sid) == Of(rs, sid) && Of(Replacements(revs, k), sid) == []
    ensures Of(Overwritten(rs, revs), sid) == Of(rs, sid)
  {
    if rs != [] {
      OthersUntouched(rs[1..], revs[1..], k, own, sid);
      var tail, over, rest := Superseded(rs[1..], revs[1..], k), Overwritten(rs[1..], revs[1..]), Replacements(revs[1..], k);
      var s := if revs[0].Some? then SupersededFrom(rs[0], k) else rs[0];
      var o := if revs[0].Some? then revs[0].value else rs[0];
      assert ([s] + tail)[1..] == tail && ([o] + over)[1..] == over;
      if revs[0].Some? {
        var r := RecordedFrom(revs[0].value, k);
        assert ([r] + rest)[1..] == rest;
      }
    }
  }

  /** An event on one security leaves every other security's records exactly as they were. */
  lemma RevisionLeavesOthers<P>(rs: seq<Record<P>>, revs: Revisions<P>, added: seq<Record<P>>, knowledge: Option<Instant>,
                                own: SecurityId, sid: SecurityId)
    requires Touches(rs, revs, own) && sid != own
    requires forall r :: r in added ==> r.sid == own
    ensures Of(Revise(rs, revs, knowledge) + added, sid) == Of(rs, sid)
  {
    NoneOf(added, own, sid);
    OfConcat(Revise(rs, revs, knowledge), added, sid);
    if knowledge.Some? {
      OthersUntouched(rs, revs, knowledge.value, own, sid);
      OfConcat(Superseded(rs, revs, knowledge.value), Replacements(revs, knowledge.value), sid);
    } else {
      OthersUntouched(rs, revs, 0, own, sid);
    }
  }
}
