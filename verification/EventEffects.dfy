/** What an accepted lifecycle event makes true of the security, before and from its effective date. */
module EventEffects {
  import opened Domain
  import opened Ranges
  import opened Records
  import opened Masters
  import opened Changes
  import opened PointInTime
  import ConflictScan

  type Entry = ConflictScan.Entry

  // ----- current facts on a date

  /** A current record of the security, in force on the day, whose fact looks like `x`. */
  ghost predicate Held<P, V>(rs: seq<Record<P>>, sid: SecurityId, day: Date, look: P -> V, x: V) {
    exists r :: r in rs && Shows(r, sid, day, look, x)
  }

  predicate Shows<P, V(==)>(r: Record<P>, sid: SecurityId, day: Date, look: P -> V, x: V) {
    Current(r) && r.sid == sid && InForce(r, day) && look(r.fact) == x
  }

  function VenueOf(f: Listing): (string, string) {
    (f.mic, f.currency)
  }

  function Itself<P>(f: P): P {
    f
  }

  // ----- the current records of a revised table

  lemma {:induction false} SupersededEach<P>(rs: seq<Record<P>>, revs: Revisions<P>, k: Instant, i: nat)
    requires |rs| == |revs| && i < |rs|
    ensures |Superseded(rs, revs, k)| == |rs|
    ensures Superseded(rs, revs, k)[i] == if revs[i].Some? then SupersededFrom(rs[i], k) else rs[i]
  {
    if i > 0 {
      SupersededEach(rs[1..], revs[1..], k, i - 1);
    } else if |rs| > 1 {
      SupersededEach(rs[1..], revs[1..], k, 0);
    }
  }

  lemma {:induction false} OverwrittenEach<P>(rs: seq<Record<P>>, revs: Revisions<P>, i: nat)
    requires |rs| == |revs| && i < |rs|
    ensures |Overwritten(rs, revs)| == |rs|
    ensures Overwritten(rs, revs)[i] == if revs[i].Some? then revs[i].value else rs[i]
  {
    if i > 0 {
      OverwrittenEach(rs[1..], revs[1..], i - 1);
    } else if |rs| > 1 {
      OverwrittenEach(rs[1..], revs[1..], 0);
    }
  }

  ghost predicate Stays<P>(rs: seq<Record<P>>, revs: Revisions<P>, r: Record<P>, i: int) {
    0 <= i < |rs| == |revs| && revs[i].None? && rs[i] == r
  }

  ghost predicate Replaces<P>(revs: Revisions<P>, knowledge: Option<Instant>, r: Record<P>, i: int) {
    0 <= i < |revs| && revs[i].Some? && r == Stamp(revs[i].value, knowledge)
  }

  ghost predicate Adds<P>(added: seq<Record<P>>, knowledge: Option<Instant>, r: Record<P>, i: int) {
    0 <= i < |added| && r == Stamp(added[i], knowledge)
  }

  /** Where a record of a revised table comes from: untouched, revised, or new. */
  ghost predicate CameFrom<P>(rs: seq<Record<P>>, revs: Revisions<P>, added: seq<Record<P>>, knowledge: Option<Instant>, r: Record<P>) {
    (exists i :: Stays(rs, revs, r, i)) || (exists i :: Replaces(revs, knowledge, r, i)) || (exists i :: Adds(added, knowledge, r, i))
  }

  lemma {:induction false} ReplacementsEach<P>(revs: Revisions<P>, k: Instant, r: Record<P>)
    ensures r in Replacements(revs, k) <==> exists i :: Replaces(revs, Some(k), r, i)
  {
    if revs != [] {
      ReplacementsEach(revs[1..], k, r);
      if i :| Replaces(revs, Some(k), r, i) {
        assert i > 0 ==> Replaces(revs[1..], Some(k), r, i - 1);
      }
      if i :| Replaces(revs[1..], Some(k), r, i) {
        assert Replaces(revs, Some(k), r, i + 1);
      }
      if revs[0].Some? && r == RecordedFrom(revs[0].value, k) {
        assert Replaces(revs, Some(k), r, 0);
      }
    }
  }

  /** The table an event leaves. */
  function TableAfter<P>(rs: seq<Record<P>>, revs: Revisions<P>, added: seq<Record<P>>, knowledge: Option<Instant>): seq<Record<P>>
    requires |rs| == |revs|
  {
    Revise(rs, revs, knowledge) + StampAll(added, knowledge)
  }

  lemma FromRevision<P>(rs: seq<Record<P>>, revs: Revisions<P>, knowledge: Option<Instant>, r: Record<P>)
    requires |rs| == |revs| && r in Revise(rs, revs, knowledge) && Current(r)
    ensures (exists i :: Stays(rs, revs, r, i)) || exists i :: Replaces(revs, knowledge, r, i)
  {
    match knowledge
    case None =>
      var i :| 0 <= i < |Overwritten(rs, revs)| && Overwritten(rs, revs)[i] == r;
      OverwrittenLength(rs, revs);
      OverwrittenEach(rs, revs, i);
      assert revs[i].None? ==> Stays(rs, revs, r, i);
      assert revs[i].Some? ==> Replaces(revs, knowledge, r, i);
    case Some(k) =>
      ReplacementsEach(revs, k, r);
      if r !in Replacements(revs, k) {
        var i :| 0 <= i < |Superseded(rs, revs, k)| && Superseded(rs, revs, k)[i] == r;
        SupersededLength(rs, revs, k);
        SupersededEach(rs, revs, k, i);
        assert Stays(rs, revs, r, i);
      }
  }

  lemma {:induction false} OverwrittenLength<P>(rs: seq<Record<P>>, revs: Revisions<P>)
    requires |rs| == |revs|
    ensures |Overwritten(rs, revs)| == |rs|
  {
    if rs != [] {
      OverwrittenLength(rs[1..], revs[1..]);
    }
  }

  lemma {:induction false} SupersededLength<P>(rs: seq<Record<P>>, revs: Revisions<P>, k: Instant)
    requires |rs| == |revs|
    ensures |Superseded(rs, revs, k)| == |rs|
  {
    if rs != [] {
      SupersededLength(rs[1..], revs[1..], k);
    }
  }

  lemma IntoRevision<P>(rs: seq<Record<P>>, revs: Revisions<P>, knowledge: Option<Instant>, r: Record<P>, i: int)
    requires |rs| == |revs| && (Stays(rs, revs, r, i) || Replaces(revs, knowledge, r, i))
    ensures r in Revise(rs, revs, knowledge)
  {
    match knowledge
    case None =>
      OverwrittenLength(rs, revs);
      OverwrittenEach(rs, revs, i);
    case Some(k) =>
      SupersededLength(rs, revs, k);
      SupersededEach(rs, revs, k, i);
      ReplacementsEach(revs, k, r);
  }

  /** The current records of the table an event leaves, exactly. */
  lemma CurrentAfter<P>(rs: seq<Record<P>>, revs: Revisions<P>, added: seq<Record<P>>, knowledge: Option<Instant>, r: Record<P>)
    requires |rs| == |revs| && Current(r)
    ensures r in TableAfter(rs, revs, added, knowledge) <==> CameFrom(rs, revs, added, knowledge, r)
  {
    var stamped := StampAll(added, knowledge);
    if r in Revise(rs, revs, knowledge) {
      FromRevision(rs, revs, knowledge, r);
    }
    if r in stamped {
      var i :| 0 <= i < |stamped| && stamped[i] == r;
      assert Adds(added, knowledge, r, i);
    }
    if i :| Stays(rs, revs, r, i) || Replaces(revs, knowledge, r, i) {
      IntoRevision(rs, revs, knowledge, r, i);
    }
    if i :| Adds(added, knowledge, r, i) {
      assert stamped[i] == r;
    }
  }

  // ----- tables whose revised records close on the effective date

  /** Every revised record was current and in force on the date, and is closed there with the same look. */
  ghost predicate ClosesOn<P, V>(rs: seq<Record<P>>, revs: Revisions<P>, sid: SecurityId, on: Date, look: P -> V) {
    && |rs| == |revs|
    && forall i :: 0 <= i < |rs| && revs[i].Some? ==> ClosedThere(rs[i], revs[i].value, sid, on, look)
  }

  predicate ClosedThere<P, V(==)>(r: Record<P>, c: Record<P>, sid: SecurityId, on: Date, look: P -> V) {
    && Affected(r, sid, on)
    && Current(c) && c.sid == sid && c.validFrom == r.validFrom && c.validTo == Some(on) && look(c.fact) == look(r.fact)
  }

  /** New records of the security begin on the date and stay open. */
  predicate OpensOn<P>(added: seq<Record<P>>, sid: SecurityId, on: Date) {
    forall i :: 0 <= i < |added| ==> Current(added[i]) && added[i].sid == sid && added[i].validFrom == on && added[i].validTo.None?
  }

  /** Before the effective date the security holds exactly what it held. */
  lemma BeforeStays<P, V>(rs: seq<Record<P>>, revs: Revisions<P>, added: seq<Record<P>>, knowledge: Option<Instant>,
                          sid: SecurityId, on: Date, look: P -> V, day: Date, x: V)
    requires ClosesOn(rs, revs, sid, on, look) && OpensOn(added, sid, on) && day < on
    ensures Held(TableAfter(rs, revs, added, knowledge), sid, day, look, x) <==> Held(rs, sid, day, look, x)
  {
    var after := TableAfter(rs, revs, added, knowledge);
    if Held(rs, sid, day, look, x) {
      var r :| r in rs && Shows(r, sid, day, look, x);
      var i :| 0 <= i < |rs| && rs[i] == r;
      if revs[i].None? {
        assert Stays(rs, revs, r, i);
        CurrentAfter(rs, revs, added, knowledge, r);
        assert Shows(r, sid, day, look, x);
      } else {
        var c := Stamp(revs[i].value, knowledge);
        assert Replaces(revs, knowledge, c, i) && ClosedThere(rs[i], revs[i].value, sid, on, look);
        CurrentAfter(rs, revs, added, knowledge, c);
        assert Shows(c, sid, day, look, x);
      }
    }
    if Held(after, sid, day, look, x) {
      var r :| r in after && Shows(r, sid, day, look, x);
      CurrentAfter(rs, revs, added, knowledge, r);
      if i :| Stays(rs, revs, r, i) {
        assert Shows(rs[i], sid, day, look, x);
      } else if i :| Replaces(revs, knowledge, r, i) {
        assert ClosedThere(rs[i], revs[i].value, sid, on, look);
        assert Shows(rs[i], sid, day, look, x);
      } else {
        var i :| Adds(added, knowledge, r, i);
        assert false;
      }
    }
  }

  /** A new record is current and in force from the effective date on. */
  lemma NewIsHeld<P, V>(rs: seq<Record<P>>, revs: Revisions<P>, added: seq<Record<P>>, knowledge: Option<Instant>,
                        sid: SecurityId, on: Date, look: P -> V, day: Date, i: nat)
    requires |rs| == |revs| && OpensOn(added, sid, on) && i < |added| && on <= day
    ensures Stamp(added[i], knowledge) in TableAfter(rs, revs, added, knowledge)
    ensures Held(TableAfter(rs, revs, added, knowledge), sid, day, look, look(added[i].fact))
  {
    var r := Stamp(added[i], knowledge);
    assert Adds(added, knowledge, r, i);
    CurrentAfter(rs, revs, added, knowledge, r);
    assert Shows(r, sid, day, look, look(added[i].fact));
  }

  // ----- the plans' revisions, record by record

  lemma {:induction false} CloseAllEach<P>(rs: seq<Record<P>>, sid: SecurityId, on: Date, i: nat)
    requires i < |rs|
    ensures CloseAll(rs, sid, on)[i] == if Affected(rs[i], sid, on) then Some(Closed(rs[i], on)) else None
  {
    if i > 0 {
      CloseAllEach(rs[1..], sid, on, i - 1);
    }
  }

  lemma {:induction false} CloseAllListingsEach(rs: seq<Record<Listing>>, sid: SecurityId, on: Date, reason: DelistingReason, i: nat)
    requires i < |rs|
    ensures CloseAllListings(rs, sid, on, reason)[i] == if Affected(rs[i], sid, on) then Some(ClosedListing(rs[i], on, reason)) else None
  {
    if i > 0 {
      CloseAllListingsEach(rs[1..], sid, on, reason, i - 1);
    }
  }

  lemma {:induction false} CloseTickersEach(ids: seq<Record<Identifier>>, sid: SecurityId, mic: string, on: Date, i: nat)
    requires i < |ids|
    ensures CloseTickers(ids, sid, mic, on)[i] == if IsTicker(ids[i], sid, mic, on) then Some(Closed(ids[i], on)) else None
  {
    if i > 0 {
      CloseTickersEach(ids[1..], sid, mic, on, i - 1);
    }
  }

  lemma {:induction false} UntouchedEach<P>(rs: seq<Record<P>>, i: nat)
    requires i < |rs|
    ensures Untouched(rs)[i].None?
  {
    if i > 0 {
      UntouchedEach(rs[1..], i - 1);
    }
  }

  /** Position of the first listing on the exchange in force on the date. */
  ghost predicate FirstListing(rs: seq<Record<Listing>>, sid: SecurityId, mic: string, on: Date, i: int) {
    0 <= i < |rs| && IsListing(rs[i], sid, mic, on) && forall j :: 0 <= j < i ==> !IsListing(rs[j], sid, mic, on)
  }

  lemma {:induction false} CloseFirstEach(rs: seq<Record<Listing>>, sid: SecurityId, mic: string, on: Date, reason: DelistingReason, i: nat)
    requires i < |rs|
    ensures CloseFirstListing(rs, sid, mic, on, reason)[i]
         == if FirstListing(rs, sid, mic, on, i) then Some(ClosedListing(rs[i], on, reason)) else None
  {
    if IsListing(rs[0], sid, mic, on) {
      if i > 0 {
        UntouchedEach(rs[1..], i - 1);
      }
    } else if i > 0 {
      CloseFirstEach(rs[1..], sid, mic, on, reason, i - 1);
      assert forall j :: 0 < j < |rs| ==> rs[j] == rs[1..][j - 1];
      if FirstListing(rs[1..], sid, mic, on, i - 1) {
        assert FirstListing(rs, sid, mic, on, i);
      }
      if FirstListing(rs, sid, mic, on, i) {
        forall j | 0 <= j < i - 1
          ensures !IsListing(rs[1..][j], sid, mic, on)
        {
          assert rs[1..][j] == rs[j + 1];
        }
      }
    }
  }

  /** Every plan closes records on the effective date, changing nothing else about them that `VenueOf`
      or the whole fact shows, and opens records there. */
  lemma PlanClosesOn(m: Master, e: Event)
    requires PlanFor(m, e).Success?
    ensures var p := PlanFor(m, e).value;
            && Fits(m, p)
            && ClosesOn(m.listings, p.listings, e.sid, e.effective, VenueOf) && OpensOn(p.newListings, e.sid, e.effective)
            && ClosesOn(m.statuses, p.statuses, e.sid, e.effective, Itself<StatusFact>) && OpensOn(p.newStatuses, e.sid, e.effective)
            && ClosesOn(m.identifiers, p.identifiers, e.sid, e.effective, Itself<Identifier>) && OpensOn(p.newIdentifiers, e.sid, e.effective)
  {
    PlanFits(m, e);
    match e
    case TickerChange(sid, mic, _, on, _) =>
      UntouchedClosesOn(m.listings, sid, on, VenueOf);
      UntouchedClosesOn(m.statuses, sid, on, Itself<StatusFact>);
      TickersCloseOn(m.identifiers, sid, mic, on);
    case ExchangeMove(sid, fromMic, _, _, _, on, _) =>
      FirstClosesOn(m.listings, sid, fromMic, on, ExchangeMoveExit);
      UntouchedClosesOn(m.statuses, sid, on, Itself<StatusFact>);
      TickersCloseOn(m.identifiers, sid, fromMic, on);
    case Delisting(sid, reason, _, on) =>
      EndingClosesOn(m, sid, on, reason);
    case Acquisition(sid, _, _, on) =>
      EndingClosesOn(m, sid, on, AcquisitionExit);
  }

  lemma UntouchedClosesOn<P, V>(rs: seq<Record<P>>, sid: SecurityId, on: Date, look: P -> V)
    ensures ClosesOn(rs, Untouched(rs), sid, on, look)
  {
    forall i | 0 <= i < |rs|
      ensures Untouched(rs)[i].None?
    {
      UntouchedEach(rs, i);
    }
  }

  lemma TickersCloseOn(ids: seq<Record<Identifier>>, sid: SecurityId, mic: string, on: Date)
    ensures ClosesOn(ids, CloseTickers(ids, sid, mic, on), sid, on, Itself<Identifier>)
  {
    var revs := CloseTickers(ids, sid, mic, on);
    forall i | 0 <= i < |ids| && revs[i].Some?
      ensures ClosedThere(ids[i], revs[i].value, sid, on, Itself<Identifier>)
    {
      CloseTickersEach(ids, sid, mic, on, i);
    }
  }

  lemma FirstClosesOn(rs: seq<Record<Listing>>, sid: SecurityId, mic: string, on: Date, reason: DelistingReason)
    ensures ClosesOn(rs, CloseFirstListing(rs, sid, mic, on, reason), sid, on, VenueOf)
  {
    var revs := CloseFirstListing(rs, sid, mic, on, reason);
    forall i | 0 <= i < |rs| && revs[i].Some?
      ensures ClosedThere(rs[i], revs[i].value, sid, on, VenueOf)
    {
      CloseFirstEach(rs, sid, mic, on, reason, i);
    }
  }

  lemma EndingClosesOn(m: Master, sid: SecurityId, on: Date, reason: DelistingReason)
    ensures ClosesOn(m.listings, CloseAllListings(m.listings, sid, on, reason), sid, on, VenueOf)
    ensures ClosesOn(m.statuses, CloseAll(m.statuses, sid, on), sid, on, Itself<StatusFact>)
    ensures ClosesOn(m.identifiers, CloseAll(m.identifiers, sid, on), sid, on, Itself<Identifier>)
  {
    var revs := CloseAllListings(m.listings, sid, on, reason);
    forall i | 0 <= i < |m.listings| && revs[i].Some?
      ensures ClosedThere(m.listings[i], revs[i].value, sid, on, VenueOf)
    {
      CloseAllListingsEach(m.listings, sid, on, reason, i);
    }
    AllCloseOn(m.statuses, sid, on);
    AllCloseOn(m.identifiers, sid, on);
  }

  lemma AllCloseOn<P>(rs: seq<Record<P>>, sid: SecurityId, on: Date)
    ensures ClosesOn(rs, CloseAll(rs, sid, on), sid, on, Itself<P>)
  {
    var revs := CloseAll(rs, sid, on);
    forall i | 0 <= i < |rs| && revs[i].Some?
      ensures ClosedThere(rs[i], revs[i].value, sid, on, Itself<P>)
    {
      CloseAllEach(rs, sid, on, i);
    }
  }

  lemma AppliedTables(m: Master, e: Event, knowledge: Option<Instant>)
    requires Apply(m, e, knowledge).Success?
    ensures PlanFor(m, e).Success? && Fits(m, PlanFor(m, e).value)
    ensures var p, after := PlanFor(m, e).value, Apply(m, e, knowledge).value;
            && after.listings == TableAfter(m.listings, p.listings, p.newListings, knowledge)
            && after.statuses == TableAfter(m.statuses, p.statuses, p.newStatuses, knowledge)
            && after.identifiers == TableAfter(m.identifiers, p.identifiers, p.newIdentifiers, knowledge)
            && Consistent(after) && RecordsWellFormed(after)
  {
    PlanFits(m, e);
  }

  // ----- before the effective date

  /** The two tables hold the same facts of the security on the day. */
  ghost predicate HoldsAlike<P(!new), V(!new)>(a: seq<Record<P>>, b: seq<Record<P>>, sid: SecurityId, day: Date, look: P -> V) {
    forall x :: Held(a, sid, day, look, x) <==> Held(b, sid, day, look, x)
  }

  /** Before its effective date an accepted event changes nothing: same status, same venues, same
      identifiers of the security. */
  lemma EventLeavesThePast(m: Master, e: Event, knowledge: Option<Instant>, day: Date)
    requires Apply(m, e, knowledge).Success? && day < e.effective
    ensures var after := Apply(m, e, knowledge).value;
            && HoldsAlike(after.listings, m.listings, e.sid, day, VenueOf)
            && HoldsAlike(after.statuses, m.statuses, e.sid, day, Itself<StatusFact>)
            && HoldsAlike(after.identifiers, m.identifiers, e.sid, day, Itself<Identifier>)
            && StatusOn(after.statuses, e.sid, day) == StatusOn(m.statuses, e.sid, day)
  {
    AppliedTables(m, e, knowledge);
    PlanClosesOn(m, e);
    var p, after := PlanFor(m, e).value, Apply(m, e, knowledge).value;
    hide PlanFor;
    hide Apply;
    TableLeavesThePast(m.listings, p.listings, p.newListings, knowledge, e.sid, e.effective, VenueOf, day);
    TableLeavesThePast(m.statuses, p.statuses, p.newStatuses, knowledge, e.sid, e.effective, Itself<StatusFact>, day);
    TableLeavesThePast(m.identifiers, p.identifiers, p.newIdentifiers, knowledge, e.sid, e.effective, Itself<Identifier>, day);
    SameStatus(after, m, e.sid, day);
  }

  lemma TableLeavesThePast<P(!new), V(!new)>(rs: seq<Record<P>>, revs: Revisions<P>, added: seq<Record<P>>, knowledge: Option<Instant>,
                                             sid: SecurityId, on: Date, look: P -> V, day: Date)
    requires ClosesOn(rs, revs, sid, on, look) && OpensOn(added, sid, on) && day < on
    ensures HoldsAlike(TableAfter(rs, revs, added, knowledge), rs, sid, day, look)
  {
    forall x
      ensures Held(TableAfter(rs, revs, added, knowledge), sid, day, look, x) <==> Held(rs, sid, day, look, x)
    {
      BeforeStays(rs, revs, added, knowledge, sid, on, look, day, x);
    }
  }

  lemma SameStatus(a: Master, b: Master, sid: SecurityId, day: Date)
    requires Consistent(a) && HoldsAlike(a.statuses, b.statuses, sid, day, Itself<StatusFact>)
    ensures StatusOn(a.statuses, sid, day) == StatusOn(b.statuses, sid, day)
  {
    StatusOnFinds(a.statuses, sid, day);
    StatusOnFinds(b.statuses, sid, day);
    if StatusOn(b.statuses, sid, day).Some? {
      var r :| CoveredBy(b.statuses, sid, day, r) && r.fact.status == StatusOn(b.statuses, sid, day).value;
      assert Shows(r, sid, day, Itself<StatusFact>, r.fact);
      assert Held(b.statuses, sid, day, Itself<StatusFact>, r.fact);
      var x :| x in a.statuses && Shows(x, sid, day, Itself<StatusFact>, r.fact);
      StatusIsUnambiguous(a, sid, day, x);
    } else if StatusOn(a.statuses, sid, day).Some? {
      var r :| CoveredBy(a.statuses, sid, day, r);
      assert Shows(r, sid, day, Itself<StatusFact>, r.fact);
      assert Held(a.statuses, sid, day, Itself<StatusFact>, r.fact);
      var x :| x in b.statuses && Shows(x, sid, day, Itself<StatusFact>, r.fact);
      assert CoveredBy(b.statuses, sid, day, x);
    }
  }

  // ----- delistings and acquisitions

  predicate Ends(e: Event) {
    e.Delisting? || e.Acquisition?
  }

  /** An acquisition leaves the security acquired, a failure liquidated, any other exit delisted. */
  function StatusLeft(e: Event): SecurityStatus
    requires Ends(e)
  {
    if e.Acquisition? then Acquired
    else if e.reason == FailureExit then Liquidated
    else Delisted
  }

  function ReasonLeft(e: Event): DelistingReason
    requires Ends(e)
  {
    if e.Acquisition? then AcquisitionExit else e.reason
  }

  function AcquirerOf(e: Event): Option<SecurityId>
    requires Ends(e)
  {
    if e.Acquisition? then e.acquirer else None
  }

  /** The day's status is the one the event leaves, recorded with the acquirer if there is one. */
  ghost predicate EndedStatus(statuses: seq<Record<StatusFact>>, e: Event, day: Date)
    requires Ends(e)
  {
    && StatusOn(statuses, e.sid, day) == Some(StatusLeft(e))
    && exists r :: CoveredBy(statuses, e.sid, day, r) && r.fact.status == StatusLeft(e) && r.fact.related == AcquirerOf(e)
                   && r.validFrom == e.effective && r.validTo.None?
  }

  ghost predicate NothingInForceOn<P>(rs: seq<Record<P>>, sid: SecurityId, day: Date) {
    forall r :: r in rs ==> !Affected(r, sid, day)
  }

  /** An accepted delisting or acquisition terminates the security: from the effective date its status
      is the one the event leaves, and no listing or identifier of it is in force. */
  lemma EndingTakesEffect(m: Master, e: Event, knowledge: Option<Instant>, day: Date)
    requires Ends(e) && Apply(m, e, knowledge).Success? && e.effective <= day
    ensures var after := Apply(m, e, knowledge).value;
            && Terminated(after, e.sid)
            && EndedStatus(after.statuses, e, day)
            && ListingsOn(after.listings, e.sid, day) == []
            && NothingInForceOn(after.identifiers, e.sid, day)
  {
    AppliedTables(m, e, knowledge);
    PlanClosesOn(m, e);
    var p, after := PlanFor(m, e).value, Apply(m, e, knowledge).value;
    assert |p.newStatuses| == 1 && p.newStatuses[0].fact.status == StatusLeft(e) && p.newStatuses[0].fact.related == AcquirerOf(e);
    hide PlanFor;
    hide Apply;
    var t := Stamp(p.newStatuses[0], knowledge);
    NewIsHeld(m.statuses, p.statuses, p.newStatuses, knowledge, e.sid, e.effective, Itself<StatusFact>, day, 0);
    assert TerminalRecord(t, e.sid);
    assert CoveredBy(after.statuses, e.sid, day, t);
    StatusIsUnambiguous(after, e.sid, day, t);
    PastTerminal(after.listings, after.statuses, t, day);
    PastTerminal(after.identifiers, after.statuses, t, day);
    if ListingsOn(after.listings, e.sid, day) != [] {
      ListingsOnExactly(after.listings, e.sid, day, ListingsOn(after.listings, e.sid, day)[0]);
    }
  }

  lemma PastTerminal<P>(rs: seq<Record<P>>, statuses: seq<Record<StatusFact>>, t: Record<StatusFact>, day: Date)
    requires NothingPastTerminal(CurrentOnly(rs), CurrentOnly(statuses))
    requires t in statuses && Current(t) && Terminal(t.fact.status) && t.validFrom <= day
    ensures NothingInForceOn(rs, t.sid, day)
  {
    CurrentOnlyTwice(rs);
    CurrentOnlyTwice(statuses);
    assert t in CurrentOnly(statuses);
    forall r | r in rs
      ensures !Affected(r, t.sid, day)
    {
      assert Current(r) ==> r in CurrentOnly(rs);
    }
  }

  /** Each listing then in force stays on record, closed with the reason the security left for. */
  lemma EndingClosesListings(m: Master, e: Event, knowledge: Option<Instant>, r: Record<Listing>)
    requires Ends(e) && Apply(m, e, knowledge).Success? && r in m.listings && Affected(r, e.sid, e.effective)
    ensures Stamp(ClosedListing(r, e.effective, ReasonLeft(e)), knowledge) in Apply(m, e, knowledge).value.listings
  {
    AppliedTables(m, e, knowledge);
    var p := PlanFor(m, e).value;
    var i :| 0 <= i < |m.listings| && m.listings[i] == r;
    CloseAllListingsEach(m.listings, e.sid, e.effective, ReasonLeft(e), i);
    assert p.listings == CloseAllListings(m.listings, e.sid, e.effective, ReasonLeft(e));
    hide PlanFor;
    hide Apply;
    var c := Stamp(ClosedListing(r, e.effective, ReasonLeft(e)), knowledge);
    assert Replaces(p.listings, knowledge, c, i);
    CurrentAfter(m.listings, p.listings, p.newListings, knowledge, c);
  }

  // ----- ticker changes and exchange moves

  lemma {:induction false} InBySecurity(ids: seq<Entry>, sid: SecurityId, q: Qualifier, r: Entry)
    ensures r in BySecurity(ids, sid, q) <==> r in ids && r.sid == sid && QualifierOf(r.fact) == q
  {
    if ids != [] {
      InBySecurity(ids[1..], sid, q, r);
      assert ids == [ids[0]] + ids[1..];
    }
  }

  /** `z` is the only ticker of the security on the exchange in force on the day it starts. */
  ghost predicate Alone(ids: seq<Entry>, z: Entry) {
    forall x :: x in ids && IsTicker(x, z.sid, z.fact.mic, z.validFrom) ==> x == z
  }

  ghost predicate OpenTicker(ids: seq<Entry>, z: Entry) {
    z in ids && Current(z) && z.validTo.None? && z.fact.kind == Ticker && z.fact.provider == ""
  }

  /** Whatever the scan overlooks elsewhere, it overlooks nothing beside a record alone on the day it
      starts: that record is kept, and so is whatever stands for a later one. */
  lemma AlonePrevails(m: Master, z: Entry, r: Entry, day: Date)
    requires Consistent(m) && RecordsWellFormed(m)
    requires OpenTicker(m.identifiers, z) && Alone(m.identifiers, z) && z.validFrom <= day
    requires r in m.identifiers && IsTicker(r, z.sid, z.fact.mic, day) && r.fact.provider == ""
    ensures r.fact.value == z.fact.value
  {
    var group := OwnTickers(m, z);
    OwnTickersAre(m, z);
    hide Consistent;
    hide RecordsWellFormed;
    hide OwnTickers;
    hide ConflictScan.Silent;
    KeptAlone(group, z);
    if r.fact.value != z.fact.value {
      var k := StandsFor(group, r);
      KeptStandApart(group, z, k, r);
      assert false;
    }
  }

  /** The current records of the group the scan compares `z` with. */
  function OwnTickers(m: Master, z: Entry): seq<Entry> {
    BySecurity(CurrentOnly(m.identifiers), z.sid, QualifierOf(z.fact))
  }

  lemma OwnTickersAre(m: Master, z: Entry)
    requires Consistent(m) && RecordsWellFormed(m)
    ensures forall x: Entry :: x in OwnTickers(m, z) <==>
                               x in m.identifiers && Current(x) && x.sid == z.sid && QualifierOf(x.fact) == QualifierOf(z.fact)
    ensures ConflictScan.AllProper(OwnTickers(m, z)) && ConflictScan.Silent(OwnTickers(m, z), ConflictScan.ValueOf)
  {
    var q, ids := QualifierOf(z.fact), CurrentOnly(m.identifiers);
    forall x: Entry
      ensures x in OwnTickers(m, z) <==> x in m.identifiers && Current(x) && x.sid == z.sid && QualifierOf(x.fact) == q
    {
      InBySecurity(ids, z.sid, q, x);
      InCurrent(m.identifiers, x);
    }
    assert OneValue(BySecurity(ids, z.sid, q));
    hide OneValue;
    ConflictScan.SearchesAreScans(OwnTickers(m, z));
  }

  lemma InCurrent<P>(rs: seq<Record<P>>, r: Record<P>)
    ensures r in CurrentOnly(rs) <==> r in rs && Current(r)
  {
    CurrentOnlyTwice(rs);
  }

  lemma KeptStandApart(group: seq<Entry>, z: Entry, k: Entry, r: Entry)
    requires ConflictScan.AllProper(group) && z in ConflictScan.KeptOf(group) && k in ConflictScan.KeptOf(group)
    requires InForce(z, r.validFrom) && InForce(k, r.validFrom)
    ensures k.fact.value == z.fact.value
  {
    ConflictScan.KeptDisagreeApart(group, ConflictScan.ValueOf, z, k);
    assert Contains(RangeOf(z), r.validFrom) && Contains(RangeOf(k), r.validFrom);
    assert !ConflictScan.Clash(z, k, ConflictScan.ValueOf);
  }

  lemma KeptAlone(group: seq<Entry>, z: Entry)
    requires ConflictScan.Silent(group, ConflictScan.ValueOf) && z in group && Proper(RangeOf(z))
    requires forall x :: x in group && InForce(x, z.validFrom) ==> x == z
    ensures z in ConflictScan.KeptOf(group)
  {
    var s := ConflictScan.InOrder(group);
    ConflictScan.InOrderFacts(group);
    ConflictScan.SilentIsQuiet(group, ConflictScan.ValueOf);
    ConflictScan.KeptOrDropped(s, z);
    if z in ConflictScan.Dropped(s) {
      var k := ConflictScan.Keeper(s, ConflictScan.ValueOf, z);
      ConflictScan.KeptOrDropped(s, k);
      assert k in group && InForce(k, z.validFrom);
    }
  }

  /** The kept record that stands for a record: itself, or one it was dropped in favour of. */
  lemma StandsFor(group: seq<Entry>, r: Entry) returns (k: Entry)
    requires ConflictScan.Silent(group, ConflictScan.ValueOf) && r in group && Proper(RangeOf(r))
    ensures k in ConflictScan.KeptOf(group) && k.fact.value == r.fact.value && InForce(k, r.validFrom)
  {
    var s := ConflictScan.InOrder(group);
    ConflictScan.InOrderFacts(group);
    ConflictScan.SilentIsQuiet(group, ConflictScan.ValueOf);
    ConflictScan.KeptOrDropped(s, r);
    k := r;
    if r !in ConflictScan.Kept(s) {
      k := ConflictScan.Keeper(s, ConflictScan.ValueOf, r);
    }
  }

  /** On the day, every ticker of the security on the exchange is the given one, save one that a
      provider's own map opens after the date. */
  ghost predicate TickerIs(ids: seq<Entry>, sid: SecurityId, mic: string, on: Date, day: Date, ticker: string) {
    forall r :: r in ids && IsTicker(r, sid, mic, day) ==> r.fact.value == ticker || (r.fact.provider != "" && on < r.validFrom)
  }

  lemma OpenedPrevails(m: Master, z: Entry, day: Date)
    requires Consistent(m) && RecordsWellFormed(m)
    requires OpenTicker(m.identifiers, z) && Alone(m.identifiers, z) && z.validFrom <= day
    ensures TickerIs(m.identifiers, z.sid, z.fact.mic, z.validFrom, day, z.fact.value)
  {
    forall r | r in m.identifiers && IsTicker(r, z.sid, z.fact.mic, day)
      ensures r.fact.value == z.fact.value || (r.fact.provider != "" && z.validFrom < r.validFrom)
    {
      if r.fact.provider == "" {
        AlonePrevails(m, z, r, day);
      }
    }
  }

  /** What the closing of an exchange's tickers leaves of them on the date: only what is opened. */
  lemma TickersAfter(ids: seq<Entry>, added: seq<Entry>, knowledge: Option<Instant>, sid: SecurityId, mic: string, on: Date, r: Entry)
    requires OpensOn(added, sid, on)
    requires r in TableAfter(ids, CloseTickers(ids, sid, mic, on), added, knowledge) && IsTicker(r, sid, mic, on)
    ensures exists i :: Adds(added, knowledge, r, i)
  {
    var revs := CloseTickers(ids, sid, mic, on);
    CurrentAfter(ids, revs, added, knowledge, r);
    if i :| Stays(ids, revs, r, i) {
      CloseTickersEach(ids, sid, mic, on, i);
      assert false;
    } else if i :| Replaces(revs, knowledge, r, i) {
      CloseTickersEach(ids, sid, mic, on, i);
      assert false;
    }
  }

  /** From the effective date of an accepted ticker change the security holds the new ticker on the
      exchange, and no other. */
  lemma TickerChangeTakesEffect(m: Master, e: Event, knowledge: Option<Instant>, day: Date)
    requires e.TickerChange? && Apply(m, e, knowledge).Success? && e.effective <= day
    ensures var ids := Apply(m, e, knowledge).value.identifiers;
            && Held(ids, e.sid, day, Itself<Identifier>, Identifier(Ticker, e.newTicker, e.mic, "", e.source))
            && TickerIs(ids, e.sid, e.mic, e.effective, day, e.newTicker)
  {
    AppliedTables(m, e, knowledge);
    PlanClosesOn(m, e);
    var p, after := PlanFor(m, e).value, Apply(m, e, knowledge).value;
    var z := Stamp(p.newIdentifiers[0], knowledge);
    NewIsHeld(m.identifiers, p.identifiers, p.newIdentifiers, knowledge, e.sid, e.effective, Itself<Identifier>, day, 0);
    forall x | x in after.identifiers && IsTicker(x, e.sid, e.mic, e.effective)
      ensures x == z
    {
      TickersAfter(m.identifiers, p.newIdentifiers, knowledge, e.sid, e.mic, e.effective, x);
    }
    hide PlanFor;
    hide Apply;
    OpenedPrevails(after, z, day);
  }

  /** A listing of the security on the exchange that began by the date and is in force on the day. */
  predicate ListingSince(r: Record<Listing>, sid: SecurityId, mic: string, on: Date, day: Date) {
    IsListing(r, sid, mic, day) && r.validFrom <= on
  }

  predicate TickerSince(r: Entry, sid: SecurityId, mic: string, on: Date, day: Date) {
    IsTicker(r, sid, mic, day) && r.validFrom <= on
  }

  /** From the effective date of an accepted exchange move the security is listed on the new exchange,
      in the new currency, and holds the new ticker there; and no other ticker there, unless one was in
      force there already. Of the tickers it had on the old exchange by then, none is left. */
  lemma ExchangeMoveTakesEffect(m: Master, e: Event, knowledge: Option<Instant>, day: Date)
    requires e.ExchangeMove? && Apply(m, e, knowledge).Success? && e.effective <= day
    ensures var after := Apply(m, e, knowledge).value;
            && Held(after.listings, e.sid, day, VenueOf, (e.toMic, e.currency))
            && Held(after.identifiers, e.sid, day, Itself<Identifier>, Identifier(Ticker, e.ticker, e.toMic, "", e.source))
            && (e.toMic == e.fromMic || TickersInForce(m.identifiers, e.sid, e.toMic, e.effective) == [] ==>
                  TickerIs(after.identifiers, e.sid, e.toMic, e.effective, day, e.ticker))
            && (e.toMic != e.fromMic ==>
                  forall r :: r in after.identifiers ==> !TickerSince(r, e.sid, e.fromMic, e.effective, day))
  {
    AppliedTables(m, e, knowledge);
    PlanClosesOn(m, e);
    var p, after := PlanFor(m, e).value, Apply(m, e, knowledge).value;
    var z := Stamp(p.newIdentifiers[0], knowledge);
    NewIsHeld(m.listings, p.listings, p.newListings, knowledge, e.sid, e.effective, VenueOf, day, 0);
    NewIsHeld(m.identifiers, p.identifiers, p.newIdentifiers, knowledge, e.sid, e.effective, Itself<Identifier>, day, 0);
    forall r | r in after.identifiers && IsTicker(r, e.sid, e.fromMic, e.effective)
      ensures r == z
    {
      TickersAfter(m.identifiers, p.newIdentifiers, knowledge, e.sid, e.fromMic, e.effective, r);
    }
    if e.toMic == e.fromMic || TickersInForce(m.identifiers, e.sid, e.toMic, e.effective) == [] {
      forall x | x in after.identifiers && IsTicker(x, e.sid, e.toMic, e.effective)
        ensures x == z
      {
        if e.toMic != e.fromMic {
          NoTickersThere(m.identifiers, p.newIdentifiers, knowledge, e.sid, e.fromMic, e.toMic, e.effective, x);
        }
      }
      hide PlanFor;
      hide Apply;
      OpenedPrevails(after, z, day);
    }
  }

  lemma {:induction false} InTickers(ids: seq<Entry>, sid: SecurityId, mic: string, on: Date, i: nat)
    requires i < |ids| && IsTicker(ids[i], sid, mic, on)
    ensures TickersInForce(ids, sid, mic, on) != []
  {
    if i > 0 {
      InTickers(ids[1..], sid, mic, on, i - 1);
    }
  }

  lemma {:induction false} FoundTicker(ids: seq<Entry>, sid: SecurityId, mic: string, on: Date) returns (i: nat)
    requires TickersInForce(ids, sid, mic, on) != []
    ensures i < |ids| && IsTicker(ids[i], sid, mic, on) && ids[i] in TickersInForce(ids, sid, mic, on)
  {
    i := 0;
    if !IsTicker(ids[0], sid, mic, on) {
      var k := FoundTicker(ids[1..], sid, mic, on);
      i := k + 1;
    }
  }

  /** A ticker already in force on the new exchange is not closed by the move. */
  lemma OtherExchangeStays(m: Master, e: Event, knowledge: Option<Instant>, i: nat)
    requires e.ExchangeMove? && Apply(m, e, knowledge).Success? && e.toMic != e.fromMic
    requires i < |m.identifiers| && IsTicker(m.identifiers[i], e.sid, e.toMic, e.effective)
    ensures m.identifiers[i] in Apply(m, e, knowledge).value.identifiers
  {
    AppliedTables(m, e, knowledge);
    var revs := CloseTickers(m.identifiers, e.sid, e.fromMic, e.effective);
    CloseTickersEach(m.identifiers, e.sid, e.fromMic, e.effective, i);
    assert Stays(m.identifiers, revs, m.identifiers[i], i);
    CurrentAfter(m.identifiers, revs, PlanFor(m, e).value.newIdentifiers, knowledge, m.identifiers[i]);
  }

  /** A move that brings a new ticker to an exchange leaves it the only one there, from the effective
      date on, exactly when the security has none in force there to begin with, or moves to where it
      is. */
  lemma MoveStandsAloneExactlyWhen(m: Master, e: Event, knowledge: Option<Instant>)
    requires e.ExchangeMove? && Apply(m, e, knowledge).Success?
    requires forall r :: r in TickersInForce(m.identifiers, e.sid, e.toMic, e.effective) ==> r.fact.value != e.ticker
    ensures (forall day :: e.effective <= day ==>
               TickerIs(Apply(m, e, knowledge).value.identifiers, e.sid, e.toMic, e.effective, day, e.ticker))
            <==> e.toMic == e.fromMic || TickersInForce(m.identifiers, e.sid, e.toMic, e.effective) == []
  {
    if e.toMic == e.fromMic || TickersInForce(m.identifiers, e.sid, e.toMic, e.effective) == [] {
      forall day | e.effective <= day
        ensures TickerIs(Apply(m, e, knowledge).value.identifiers, e.sid, e.toMic, e.effective, day, e.ticker)
      {
        ExchangeMoveTakesEffect(m, e, knowledge, day);
      }
    } else {
      var i := FoundTicker(m.identifiers, e.sid, e.toMic, e.effective);
      OtherExchangeStays(m, e, knowledge, i);
      hide Apply;
      assert !TickerIs(Apply(m, e, knowledge).value.identifiers, e.sid, e.toMic, e.effective, e.effective, e.ticker);
    }
  }

  lemma NoTickersThere(ids: seq<Entry>, added: seq<Entry>, knowledge: Option<Instant>, sid: SecurityId, fromMic: string, mic: string, on: Date, r: Entry)
    requires TickersInForce(ids, sid, mic, on) == [] && OpensOn(added, sid, on)
    requires r in TableAfter(ids, CloseTickers(ids, sid, fromMic, on), added, knowledge) && IsTicker(r, sid, mic, on)
    ensures exists i :: Adds(added, knowledge, r, i)
  {
    var revs := CloseTickers(ids, sid, fromMic, on);
    CurrentAfter(ids, revs, added, knowledge, r);
    if i :| Stays(ids, revs, r, i) {
      InTickers(ids, sid, mic, on, i);
      assert false;
    } else if i :| Replaces(revs, knowledge, r, i) {
      CloseTickersEach(ids, sid, fromMic, on, i);
      assert false;
    }
  }

  /** The listings on the exchange in force on the date. */
  ghost predicate OneListing(rs: seq<Record<Listing>>, sid: SecurityId, mic: string, on: Date) {
    forall i, j :: 0 <= i < |rs| && 0 <= j < |rs| && IsListing(rs[i], sid, mic, on) && IsListing(rs[j], sid, mic, on) ==> i == j
  }

  /** The first listing found on the old exchange is closed as a move, and is still on record. When it
      was the only one, the security has none left there from the effective date that began by then. */
  lemma ExchangeMoveLeavesOldListing(m: Master, e: Event, knowledge: Option<Instant>, day: Date) returns (i: nat)
    requires e.ExchangeMove? && Apply(m, e, knowledge).Success? && e.effective <= day
    ensures FirstListing(m.listings, e.sid, e.fromMic, e.effective, i)
    ensures Stamp(ClosedListing(m.listings[i], e.effective, ExchangeMoveExit), knowledge) in Apply(m, e, knowledge).value.listings
    ensures e.toMic != e.fromMic && OneListing(m.listings, e.sid, e.fromMic, e.effective) ==>
              forall r :: r in Apply(m, e, knowledge).value.listings ==> !ListingSince(r, e.sid, e.fromMic, e.effective, day)
  {
    AppliedTables(m, e, knowledge);
    var p, after := PlanFor(m, e).value, Apply(m, e, knowledge).value;
    i := FirstOf(m.listings, e.sid, e.fromMic, e.effective);
    CloseFirstEach(m.listings, e.sid, e.fromMic, e.effective, ExchangeMoveExit, i);
    var c := Stamp(ClosedListing(m.listings[i], e.effective, ExchangeMoveExit), knowledge);
    assert Replaces(p.listings, knowledge, c, i);
    CurrentAfter(m.listings, p.listings, p.newListings, knowledge, c);
    if e.toMic != e.fromMic && OneListing(m.listings, e.sid, e.fromMic, e.effective) {
      forall r | r in after.listings
        ensures !ListingSince(r, e.sid, e.fromMic, e.effective, day)
      {
        if ListingSince(r, e.sid, e.fromMic, e.effective, day) {
          OldListingGone(m.listings, p.newListings, knowledge, e.sid, e.fromMic, e.effective, r, day);
        }
      }
    }
  }

  /** Of an exchange's one listing on the date, only what is opened can be in force from then. */
  lemma OldListingGone(rs: seq<Record<Listing>>, added: seq<Record<Listing>>, knowledge: Option<Instant>, sid: SecurityId,
                       mic: string, on: Date, r: Record<Listing>, day: Date)
    requires OneListing(rs, sid, mic, on) && on <= day && ListingSince(r, sid, mic, on, day)
    requires r in TableAfter(rs, CloseFirstListing(rs, sid, mic, on, ExchangeMoveExit), added, knowledge)
    ensures exists i :: Adds(added, knowledge, r, i)
  {
    var revs := CloseFirstListing(rs, sid, mic, on, ExchangeMoveExit);
    CurrentAfter(rs, revs, added, knowledge, r);
    hide CloseFirstListing;
    if j :| Stays(rs, revs, r, j) {
      OneListingIsFirst(rs, sid, mic, on, j);
      CloseFirstEach(rs, sid, mic, on, ExchangeMoveExit, j);
      assert false;
    } else if j :| Replaces(revs, knowledge, r, j) {
      CloseFirstEach(rs, sid, mic, on, ExchangeMoveExit, j);
      assert false;
    }
  }

  lemma OneListingIsFirst(rs: seq<Record<Listing>>, sid: SecurityId, mic: string, on: Date, j: nat)
    requires OneListing(rs, sid, mic, on) && j < |rs| && IsListing(rs[j], sid, mic, on)
    ensures FirstListing(rs, sid, mic, on, j)
  {
  }

  lemma {:induction false} FirstOf(rs: seq<Record<Listing>>, sid: SecurityId, mic: string, on: Date) returns (i: nat)
    requires HasListing(rs, sid, mic, on)
    ensures FirstListing(rs, sid, mic, on, i)
  {
    i := 0;
    if !IsListing(rs[0], sid, mic, on) {
      var j :| 0 <= j < |rs| && IsListing(rs[j], sid, mic, on);
      assert IsListing(rs[1..][j - 1], sid, mic, on);
      var k := FirstOf(rs[1..], sid, mic, on);
      i := k + 1;
      forall l | 0 <= l < i
        ensures !IsListing(rs[l], sid, mic, on)
      {
        assert l > 0 ==> !IsListing(rs[1..][l - 1], sid, mic, on);
      }
    }
  }
}
