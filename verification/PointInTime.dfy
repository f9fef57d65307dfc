/** Knowledge views of the security master, over every run of events. */
module PointInTime {
  import opened Domain
  import opened Ranges
  import opened Records
  import opened Masters
  import opened Changes
  import MasterCheck

  /** The master as believed at `at`. */
  function ViewOf(m: Master, at: Instant): Master {
    Master(m.securities, Visible(m.listings, at), Visible(m.statuses, at), Visible(m.identifiers, at))
  }

  /** The view is validated like any other master. */
  ghost function KnownAsOf(m: Master, at: Instant): Result<Master, MasterError> {
    Checked(ViewOf(m, at))
  }

  class PointInTimeSecurityMaster {
    const master: Master
    var views: map<Instant, Master>

    ghost predicate Valid()
      reads this
    {
      forall at :: at in views ==> KnownAsOf(master, at) == Success(views[at])
    }

    constructor (master: Master)
      ensures this.master == master && Valid() && views == map[]
    {
      this.master := master;
      views := map[];
    }

    /** Cached per knowledge instant; the cache never changes an answer. */
    method View(asOf: Instant) returns (r: Result<Master, MasterError>)
      requires Valid()
      modifies this`views
      ensures Valid()
      ensures r == KnownAsOf(master, asOf)
      ensures views == if r.Success? then old(views)[asOf := r.value] else old(views)
    {
      if asOf !in views {
        var view := ViewOf(master, asOf);
        var consistent := MasterCheck.CheckMaster(view);
        if !RecordsWellFormed(view) || !consistent {
          return Failure(InvalidMaster);
        }
        views := views[asOf := view];
      }
      r := Success(views[asOf]);
    }
  }

  // ----- one event

  lemma StampedAdded<P>(rs: seq<Record<P>>, sid: SecurityId, k: Instant)
    requires OpensFor(rs, sid)
    ensures forall r :: r in StampAll(rs, Some(k)) ==> r.recordedAt == Some(k) && Current(r) && r.sid == sid
  {
  }

  /** An event known at `k` leaves every earlier view exactly as it was: the same listing, status
      and identifier records in the same order. */
  lemma EarlierViewsUnchanged(m: Master, e: Event, k: Instant, at: Instant)
    requires Apply(m, e, Some(k)).Success? && at < k
    ensures ViewOf(Apply(m, e, Some(k)).value, at) == ViewOf(m, at)
  {
    PlansAreSound(m, e);
    hide PlanFor;
    var p := PlanFor(m, e).value;
    StampedAdded(p.newListings, e.sid, k);
    StampedAdded(p.newStatuses, e.sid, k);
    StampedAdded(p.newIdentifiers, e.sid, k);
    RevisionUnseenBefore(m.listings, p.listings, StampAll(p.newListings, Some(k)), k, at);
    RevisionUnseenBefore(m.statuses, p.statuses, StampAll(p.newStatuses, Some(k)), k, at);
    RevisionUnseenBefore(m.identifiers, p.identifiers, StampAll(p.newIdentifiers, Some(k)), k, at);
  }

  ghost predicate MasterKnownBy(m: Master, k: Instant) {
    KnownBy(m.listings, k) && KnownBy(m.statuses, k) && KnownBy(m.identifiers, k)
  }

  lemma ApplyKnownBy(m: Master, e: Event, before: Instant, k: Instant)
    requires Apply(m, e, Some(k)).Success? && MasterKnownBy(m, before) && before <= k
    ensures MasterKnownBy(Apply(m, e, Some(k)).value, k)
  {
    PlansAreSound(m, e);
    hide PlanFor;
    var p := PlanFor(m, e).value;
    StampedAdded(p.newListings, e.sid, k);
    StampedAdded(p.newStatuses, e.sid, k);
    StampedAdded(p.newIdentifiers, e.sid, k);
    RevisedKnownBy(m.listings, p.listings, StampAll(p.newListings, Some(k)), before, k);
    RevisedKnownBy(m.statuses, p.statuses, StampAll(p.newStatuses, Some(k)), before, k);
    RevisedKnownBy(m.identifiers, p.identifiers, StampAll(p.newIdentifiers, Some(k)), before, k);
  }

  /** Once all stamps are past, the view is the current records, and it is as consistent as the master. */
  lemma LatestViewConsistent(m: Master, k: Instant, at: Instant)
    requires MasterKnownBy(m, k) && k <= at && Consistent(m)
    ensures ViewOf(m, at) == Master(m.securities, CurrentOnly(m.listings), CurrentOnly(m.statuses), CurrentOnly(m.identifiers))
    ensures Consistent(ViewOf(m, at))
  {
    VisibleIsCurrent(m.listings, k, at);
    VisibleIsCurrent(m.statuses, k, at);
    VisibleIsCurrent(m.identifiers, k, at);
    CurrentOnlyTwice(m.listings);
    CurrentOnlyTwice(m.statuses);
    CurrentOnlyTwice(m.identifiers);
    var view := ViewOf(m, at);
    assert SidsKnown(view.listings, m.securities) && SidsKnown(view.statuses, m.securities) && SidsKnown(view.identifiers, m.securities) by {
      hide CurrentOnly;
      hide Visible;
    }
  }

  /** A view of well-formed records holds well-formed records. */
  lemma {:induction false} VisibleWellFormed<P>(rs: seq<Record<P>>, at: Instant)
    requires AllWellFormed(rs)
    ensures AllWellFormed(Visible(rs, at))
  {
    if rs != [] {
      assert WellFormed(rs[0]);
      VisibleWellFormed(rs[1..], at);
    }
  }

  predicate EndedWithReason(r: Record<Listing>) {
    r.fact.reason.Some? ==> r.validTo.Some?
  }

  lemma {:induction false} VisibleEndedWithReason(rs: seq<Record<Listing>>, at: Instant)
    requires forall i :: 0 <= i < |rs| ==> EndedWithReason(rs[i])
    ensures forall i :: 0 <= i < |Visible(rs, at)| ==> EndedWithReason(Visible(rs, at)[i])
  {
    if rs != [] {
      VisibleEndedWithReason(rs[1..], at);
    }
  }

  lemma ViewWellFormed(m: Master, at: Instant)
    requires RecordsWellFormed(m)
    ensures RecordsWellFormed(ViewOf(m, at))
  {
    VisibleWellFormed(m.listings, at);
    VisibleWellFormed(m.statuses, at);
    VisibleWellFormed(m.identifiers, at);
    assert forall i :: 0 <= i < |m.listings| ==> EndedWithReason(m.listings[i]);
    VisibleEndedWithReason(m.listings, at);
    hide Visible;
    assert forall i :: 0 <= i < |Visible(m.listings, at)| ==> EndedWithReason(Visible(m.listings, at)[i]);
  }

  // ----- every run of events

  datatype Stamped = Stamped(event: Event, at: Instant)

  /** An event that is refused leaves the master as it was. */
  ghost function Step(m: Master, s: Stamped): Master {
    match Apply(m, s.event, Some(s.at))
    case Success(next) => next
    case Failure(_) => m
  }

  ghost function RunEvents(m: Master, log: seq<Stamped>): Master {
    if log == [] then m else Step(RunEvents(m, log[..|log| - 1]), log[|log| - 1])
  }

  ghost predicate InKnowledgeOrder(start: Instant, log: seq<Stamped>) {
    && (forall i :: 0 <= i < |log| ==> start <= log[i].at)
    && (forall i, j :: 0 <= i < j < |log| ==> log[i].at <= log[j].at)
  }

  /** How many leading events are known by `at`. */
  function KnownCount(log: seq<Stamped>, at: Instant): (n: nat)
    ensures n <= |log|
  {
    if log == [] || log[0].at > at then 0 else 1 + KnownCount(log[1..], at)
  }

  ghost function LastKnowledge(start: Instant, log: seq<Stamped>): Instant {
    if log == [] then start else log[|log| - 1].at
  }

  lemma StepKeeps(m: Master, s: Stamped, before: Instant)
    requires MasterKnownBy(m, before) && before <= s.at && Consistent(m)
    ensures MasterKnownBy(Step(m, s), s.at) && Consistent(Step(m, s))
  {
    if Apply(m, s.event, Some(s.at)).Success? {
      ApplyKnownBy(m, s.event, before, s.at);
    }
  }

  lemma {:induction false} RunKeeps(m: Master, start: Instant, log: seq<Stamped>)
    requires MasterKnownBy(m, start) && Consistent(m) && InKnowledgeOrder(start, log)
    ensures MasterKnownBy(RunEvents(m, log), LastKnowledge(start, log)) && Consistent(RunEvents(m, log))
    decreases |log|
  {
    hide Consistent;
    hide MasterKnownBy;
    hide Step;
    if log != [] {
      var n := |log| - 1;
      RunKeeps(m, start, log[..n]);
      StepKeeps(RunEvents(m, log[..n]), log[n], LastKnowledge(start, log[..n]));
    }
  }

  lemma {:induction false} RunKeepsWellFormed(m: Master, log: seq<Stamped>)
    requires RecordsWellFormed(m)
    ensures RecordsWellFormed(RunEvents(m, log))
    decreases |log|
  {
    hide RecordsWellFormed;
    if log != [] {
      RunKeepsWellFormed(m, log[..|log| - 1]);
      AppliedIsWellFormed(RunEvents(m, log[..|log| - 1]), log[|log| - 1]);
    }
  }

  lemma AppliedIsWellFormed(m: Master, s: Stamped)
    requires RecordsWellFormed(m)
    ensures RecordsWellFormed(Step(m, s))
  {
    hide RecordsWellFormed;
    hide Consistent;
  }

  /** Running further events changes no view taken before they were known. */
  lemma {:induction false} ViewSettles(m: Master, log: seq<Stamped>, n: nat, at: Instant)
    requires n <= |log| && forall i :: n <= i < |log| ==> at < log[i].at
    ensures ViewOf(RunEvents(m, log), at) == ViewOf(RunEvents(m, log[..n]), at)
    decreases |log|
  {
    hide ViewOf;
    if n == |log| {
      assert log[..n] == log;
    } else {
      var k := |log| - 1;
      ViewSettles(m, log[..k], n, at);
      assert log[..k][..n] == log[..n];
      var before := RunEvents(m, log[..k]);
      if Apply(before, log[k].event, Some(log[k].at)).Success? {
        EarlierViewsUnchanged(before, log[k].event, log[k].at, at);
      }
    }
  }

  lemma {:induction false} KnownCountSplits(start: Instant, log: seq<Stamped>, at: Instant)
    requires InKnowledgeOrder(start, log)
    ensures forall i :: 0 <= i < KnownCount(log, at) ==> log[i].at <= at
    ensures forall i :: KnownCount(log, at) <= i < |log| ==> log[i].at > at
    decreases |log|
  {
    if log != [] && log[0].at <= at {
      KnownCountSplits(start, log[1..], at);
    }
  }

  /** What the final master says was known at any instant is exactly what the master then said: the
      view equals that of the run of the events known by then. And when the starting master's stamps
      are all at or before `start`, its views are consistent before that instant, and the events come
      in knowledge order, every view of the final master, at every instant, satisfies the aggregate
      invariant and is accepted when it is validated again. */
  lemma EveryViewIsHistory(m: Master, start: Instant, log: seq<Stamped>, at: Instant)
    requires MasterKnownBy(m, start) && Consistent(m) && InKnowledgeOrder(start, log)
    requires at < start ==> Consistent(ViewOf(m, at))
    ensures ViewOf(RunEvents(m, log), at) == ViewOf(RunEvents(m, log[..KnownCount(log, at)]), at)
    ensures Consistent(ViewOf(RunEvents(m, log), at))
    ensures RecordsWellFormed(m) ==> KnownAsOf(RunEvents(m, log), at) == Success(ViewOf(RunEvents(m, log), at))
  {
    if RecordsWellFormed(m) {
      RunKeepsWellFormed(m, log);
      ViewWellFormed(RunEvents(m, log), at);
    }
    hide RecordsWellFormed;
    var n := KnownCount(log, at);
    KnownCountSplits(start, log, at);
    ViewSettles(m, log, n, at);
    var known := log[..n];
    RunKeeps(m, start, known);
    if start <= at {
      LatestViewConsistent(RunEvents(m, known), LastKnowledge(start, known), at);
    } else {
      assert log != [] ==> start <= log[0].at;
      assert n == 0;
    }
  }

  /** A backfilled master: no stamps at all. */
  ghost predicate Backfilled<P>(rs: seq<Record<P>>) {
    forall r :: r in rs ==> r.recordedAt.None? && r.supersededAt.None?
  }

  /** From a consistent backfill every view of every later master is consistent. */
  lemma BackfillViewsConsistent(m: Master, start: Instant, log: seq<Stamped>, at: Instant)
    requires Backfilled(m.listings) && Backfilled(m.statuses) && Backfilled(m.identifiers)
    requires Consistent(m) && InKnowledgeOrder(start, log)
    ensures Consistent(ViewOf(RunEvents(m, log), at))
    ensures RecordsWellFormed(m) ==> KnownAsOf(RunEvents(m, log), at).Success?
  {
    LatestViewConsistent(m, at, at);
    EveryViewIsHistory(m, start, log, at);
  }

  // ----- superseding against overwriting

  lemma {:induction false} TickersOfCurrent(ids: seq<Record<Identifier>>, sid: SecurityId, mic: string, on: Date)
    ensures TickersInForce(CurrentOnly(ids), sid, mic, on) == TickersInForce(ids, sid, mic, on)
    ensures CloseTickers(CurrentOnly(ids), sid, mic, on) == CurrentRevisions(ids, CloseTickers(ids, sid, mic, on))
  {
    if ids != [] {
      TickersOfCurrent(ids[1..], sid, mic, on);
      var revs := CloseTickers(ids, sid, mic, on);
      assert revs[1..] == CloseTickers(ids[1..], sid, mic, on);
      if Current(ids[0]) {
        assert ([ids[0]] + CurrentOnly(ids[1..]))[1..] == CurrentOnly(ids[1..]);
      }
    }
  }

  lemma {:induction false} UntouchedOfCurrent<P>(rs: seq<Record<P>>)
    ensures Untouched(CurrentOnly(rs)) == CurrentRevisions(rs, Untouched(rs))
  {
    if rs != [] {
      UntouchedOfCurrent(rs[1..]);
      assert Untouched(rs)[1..] == Untouched(rs[1..]);
      if Current(rs[0]) {
        assert ([rs[0]] + CurrentOnly(rs[1..]))[1..] == CurrentOnly(rs[1..]);
      }
    }
  }

  lemma {:induction false} CloseFirstOfCurrent(rs: seq<Record<Listing>>, sid: SecurityId, mic: string, on: Date, reason: DelistingReason)
    ensures CloseFirstListing(CurrentOnly(rs), sid, mic, on, reason)
         == CurrentRevisions(rs, CloseFirstListing(rs, sid, mic, on, reason))
  {
    if rs != [] {
      CloseFirstOfCurrent(rs[1..], sid, mic, on, reason);
      UntouchedOfCurrent(rs[1..]);
      var revs := CloseFirstListing(rs, sid, mic, on, reason);
      assert revs[1..] == if IsListing(rs[0], sid, mic, on) then Untouched(rs[1..]) else CloseFirstListing(rs[1..], sid, mic, on, reason);
      if Current(rs[0]) {
        assert ([rs[0]] + CurrentOnly(rs[1..]))[1..] == CurrentOnly(rs[1..]);
      }
    }
  }

  lemma {:induction false} CloseAllOfCurrent<P>(rs: seq<Record<P>>, sid: SecurityId, on: Date)
    ensures CloseAll(CurrentOnly(rs), sid, on) == CurrentRevisions(rs, CloseAll(rs, sid, on))
  {
    if rs != [] {
      CloseAllOfCurrent(rs[1..], sid, on);
      assert CloseAll(rs, sid, on)[1..] == CloseAll(rs[1..], sid, on);
      if Current(rs[0]) {
        assert ([rs[0]] + CurrentOnly(rs[1..]))[1..] == CurrentOnly(rs[1..]);
      }
    }
  }

  lemma {:induction false} CloseListingsOfCurrent(rs: seq<Record<Listing>>, sid: SecurityId, on: Date, reason: DelistingReason)
    ensures CloseAllListings(CurrentOnly(rs), sid, on, reason) == CurrentRevisions(rs, CloseAllListings(rs, sid, on, reason))
  {
    if rs != [] {
      CloseListingsOfCurrent(rs[1..], sid, on, reason);
      assert CloseAllListings(rs, sid, on, reason)[1..] == CloseAllListings(rs[1..], sid, on, reason);
      if Current(rs[0]) {
        assert ([rs[0]] + CurrentOnly(rs[1..]))[1..] == CurrentOnly(rs[1..]);
      }
    }
  }

  lemma GuardsOfCurrent(m: Master, sid: SecurityId, mic: string, on: Date)
    ensures TerminatedBy(CurrentOnly(m.statuses), sid, on) <==> TerminatedBy(m.statuses, sid, on)
    ensures HasListing(CurrentOnly(m.listings), sid, mic, on) <==> HasListing(m.listings, sid, mic, on)
  {
    var cs, cl := CurrentOnly(m.statuses), CurrentOnly(m.listings);
    CurrentOnlyTwice(m.statuses);
    CurrentOnlyTwice(m.listings);
    if TerminatedBy(m.statuses, sid, on) {
      var i :| 0 <= i < |m.statuses| && Current(m.statuses[i]) && m.statuses[i].sid == sid
               && Terminal(m.statuses[i].fact.status) && m.statuses[i].validFrom <= on;
      assert m.statuses[i] in cs;
    }
    if TerminatedBy(cs, sid, on) {
      var i :| 0 <= i < |cs| && Current(cs[i]) && cs[i].sid == sid && Terminal(cs[i].fact.status) && cs[i].validFrom <= on;
      assert cs[i] in m.statuses;
    }
    if HasListing(m.listings, sid, mic, on) {
      var i :| 0 <= i < |m.listings| && IsListing(m.listings[i], sid, mic, on);
      assert m.listings[i] in cl;
    }
    if HasListing(cl, sid, mic, on) {
      var i :| 0 <= i < |cl| && IsListing(cl[i], sid, mic, on);
      assert cl[i] in m.listings;
    }
  }

  ghost function CurrentMaster(m: Master): Master {
    Master(m.securities, CurrentOnly(m.listings), CurrentOnly(m.statuses), CurrentOnly(m.identifiers))
  }

  /** Planning against the current records alone gives the same plan, restricted to them. */
  lemma PlanOfCurrent(m: Master, e: Event)
    ensures PlanFor(CurrentMaster(m), e).Success? <==> PlanFor(m, e).Success?
    ensures PlanFor(m, e).Success? ==>
              var p, c := PlanFor(m, e).value, PlanFor(CurrentMaster(m), e).value;
              && Fits(m, p)
              && c.listings == CurrentRevisions(m.listings, p.listings) && c.newListings == p.newListings
              && c.statuses == CurrentRevisions(m.statuses, p.statuses) && c.newStatuses == p.newStatuses
              && c.identifiers == CurrentRevisions(m.identifiers, p.identifiers) && c.newIdentifiers == p.newIdentifiers
  {
    PlanFits(m, e);
    UntouchedOfCurrent(m.listings);
    UntouchedOfCurrent(m.statuses);
    match e
    case TickerChange(sid, mic, _, on, _) =>
      GuardsOfCurrent(m, sid, mic, on);
      TickersOfCurrent(m.identifiers, sid, mic, on);
    case ExchangeMove(sid, fromMic, _, _, _, on, _) =>
      GuardsOfCurrent(m, sid, fromMic, on);
      TickersOfCurrent(m.identifiers, sid, fromMic, on);
      CloseFirstOfCurrent(m.listings, sid, fromMic, on, ExchangeMoveExit);
    case Delisting(sid, reason, _, on) =>
      GuardsOfCurrent(m, sid, "", on);
      CloseListingsOfCurrent(m.listings, sid, on, reason);
      CloseAllOfCurrent(m.statuses, sid, on);
      CloseAllOfCurrent(m.identifiers, sid, on);
    case Acquisition(sid, _, _, on) =>
      GuardsOfCurrent(m, sid, "", on);
      CloseListingsOfCurrent(m.listings, sid, on, AcquisitionExit);
      CloseAllOfCurrent(m.statuses, sid, on);
      CloseAllOfCurrent(m.identifiers, sid, on);
  }

  /** The same records, up to order and `recordedAt`. */
  ghost predicate SameRecords(a: Master, b: Master) {
    && a.securities == b.securities
    && Bag(a.listings) == Bag(b.listings) && Bag(a.statuses) == Bag(b.statuses) && Bag(a.identifiers) == Bag(b.identifiers)
  }

  lemma {:induction false} StampErased<P>(rs: seq<Record<P>>, k: Instant)
    ensures Bag(StampAll(rs, Some(k))) == Bag(rs) && StampAll(rs, None) == rs
  {
    if rs != [] {
      StampErased(rs[1..], k);
      assert StampAll(rs, Some(k))[1..] == StampAll(rs[1..], Some(k));
    }
  }

  lemma TableAgrees<P>(rs: seq<Record<P>>, revs: Revisions<P>, added: seq<Record<P>>, sid: SecurityId, before: Instant, k: Instant, at: Instant)
    requires SoundTable(rs, revs, added, sid) && KnownBy(rs, before) && before <= k <= at
    ensures |CurrentRevisions(rs, revs)| == |CurrentOnly(rs)|
    ensures Bag(Visible(Revise(rs, revs, Some(k)) + StampAll(added, Some(k)), at))
         == Bag(Revise(CurrentOnly(rs), CurrentRevisions(rs, revs), None) + StampAll(added, None))
  {
    StampedAdded(added, sid, k);
    var stamped := StampAll(added, Some(k));
    RevisedKnownBy(rs, revs, stamped, before, k);
    VisibleIsCurrent(Revise(rs, revs, Some(k)) + stamped, k, at);
    SupersedingMatchesOverwriting(rs, revs, stamped, k);
    StampErased(added, k);
    var base := Overwritten(CurrentOnly(rs), CurrentRevisions(rs, revs));
    BagConcat(base, stamped);
    BagConcat(base, added);
  }

  /** For an instant at or after `k`: superseding at knowledge time `k` and then looking, or looking
      and then overwriting, gives the same records, when both are accepted. */
  lemma SupersedingIsOverwritingTheView(m: Master, e: Event, before: Instant, k: Instant, at: Instant)
    requires MasterKnownBy(m, before) && before <= k <= at
    requires Apply(m, e, Some(k)).Success? && Apply(ViewOf(m, at), e, None).Success?
    ensures SameRecords(ViewOf(Apply(m, e, Some(k)).value, at), Apply(ViewOf(m, at), e, None).value)
  {
    VisibleIsCurrent(m.listings, before, at);
    VisibleIsCurrent(m.statuses, before, at);
    VisibleIsCurrent(m.identifiers, before, at);
    assert ViewOf(m, at) == CurrentMaster(m);
    PlansAreSound(m, e);
    PlanOfCurrent(m, e);
    hide PlanFor;
    hide Visible;
    hide Revise;
    hide Bag;
    hide StampAll;
    var p := PlanFor(m, e).value;
    TableAgrees(m.listings, p.listings, p.newListings, e.sid, before, k, at);
    TableAgrees(m.statuses, p.statuses, p.newStatuses, e.sid, before, k, at);
    TableAgrees(m.identifiers, p.identifiers, p.newIdentifiers, e.sid, before, k, at);
  }

  // ----- termination is forever

  ghost predicate TerminalRecord(r: Record<StatusFact>, sid: SecurityId) {
    Current(r) && r.sid == sid && Terminal(r.fact.status) && r.validTo.None?
  }

  /** The security has a current, open-ended terminal status. */
  ghost predicate Terminated(m: Master, sid: SecurityId) {
    exists r :: r in m.statuses && TerminalRecord(r, sid)
  }

  lemma {:induction false} CurrentKept<P>(rs: seq<Record<P>>, revs: Revisions<P>, k: Instant, i: nat)
    requires |rs| == |revs| && i < |rs| && revs[i].None?
    ensures rs[i] in Superseded(rs, revs, k) && rs[i] in Overwritten(rs, revs)
  {
    if i > 0 {
      CurrentKept(rs[1..], revs[1..], k, i - 1);
    }
  }

  lemma KeptByRevise<P>(rs: seq<Record<P>>, revs: Revisions<P>, added: seq<Record<P>>, knowledge: Option<Instant>, i: nat)
    requires |rs| == |revs| && i < |rs| && revs[i].None?
    ensures rs[i] in Revise(rs, revs, knowledge) + added
  {
    CurrentKept(rs, revs, if knowledge.Some? then knowledge.value else 0, i);
  }

  lemma {:induction false} LaterStatusUntouched(rs: seq<Record<StatusFact>>, sid: SecurityId, on: Date, i: nat)
    requires i < |rs| && rs[i].validFrom > on
    ensures CloseAll(rs, sid, on)[i].None?
  {
    if i > 0 {
      LaterStatusUntouched(rs[1..], sid, on, i - 1);
    }
  }

  /** A record opened with no end breaks the aggregate invariant beside a terminal status. */
  lemma OpenRecordPastTerminal<P>(rs: seq<Record<P>>, statuses: seq<Record<StatusFact>>, r: Record<P>, t: Record<StatusFact>)
    requires r in rs && Current(r) && r.validTo.None?
    requires t in statuses && TerminalRecord(t, r.sid)
    ensures !NothingPastTerminal(CurrentOnly(rs), CurrentOnly(statuses))
  {
    CurrentOnlyTwice(rs);
    CurrentOnlyTwice(statuses);
    assert r in CurrentOnly(rs) && t in CurrentOnly(statuses) && !EndsBy(r, t.validFrom);
  }

  lemma TwoOpenStatuses(statuses: seq<Record<StatusFact>>, a: Record<StatusFact>, b: Record<StatusFact>, sid: SecurityId)
    requires a in statuses && b in statuses && a != b && a.sid == sid && b.sid == sid
    requires Current(a) && Current(b) && a.validTo.None? && b.validTo.None?
    ensures !StatusesDisjoint(CurrentOnly(statuses))
  {
    var own := Of(CurrentOnly(statuses), sid);
    CurrentOnlyTwice(statuses);
    InOf(CurrentOnly(statuses), sid);
    assert a in own && b in own;
    var i :| 0 <= i < |own| && own[i] == a;
    var j :| 0 <= j < |own| && own[j] == b;
    NothingReportedMeansDisjoint(RangesOf(own));
    assert Overlap(RangesOf(own)[Min(i, j)], RangesOf(own)[Max(i, j)]);
    assert FirstOverlap(RangesOf(own)).Some?;
  }

  lemma StampedOpen<P>(revised: seq<Record<P>>, opening: Record<P>, knowledge: Option<Instant>)
    requires Current(opening)
    ensures StampAll([opening], knowledge)[0] in revised + StampAll([opening], knowledge)
    ensures StampAll([opening], knowledge)[0] == Stamp(opening, knowledge)
  {
    var all := revised + StampAll([opening], knowledge);
    assert all[|revised|] == StampAll([opening], knowledge)[0];
  }

  lemma LateChangeRefused(m: Master, e: Event, knowledge: Option<Instant>, i: nat)
    requires i < |m.statuses| && TerminalRecord(m.statuses[i], e.sid) && m.statuses[i].validFrom <= e.effective
    ensures Apply(m, e, knowledge).Failure?
  {
    assert TerminatedBy(m.statuses, e.sid, e.effective);
  }

  lemma EarlyTickerChangeInconsistent(m: Master, p: Plan, knowledge: Option<Instant>, sid: SecurityId, on: Date, fact: Identifier, i: nat)
    requires Fits(m, p) && i < |m.statuses| && TerminalRecord(m.statuses[i], sid)
    requires p.statuses[i].None? && p.newIdentifiers == [Opened(sid, on, fact)]
    ensures !Consistent(Perform(m, p, knowledge))
  {
    var revised := Perform(m, p, knowledge);
    var opening := Opened(sid, on, fact);
    StampedOpen(Revise(m.identifiers, p.identifiers, knowledge), opening, knowledge);
    KeptByRevise(m.statuses, p.statuses, StampAll(p.newStatuses, knowledge), knowledge, i);
    OpenRecordPastTerminal(revised.identifiers, revised.statuses, Stamp(opening, knowledge), m.statuses[i]);
  }

  lemma EarlyTerminationInconsistent(m: Master, p: Plan, knowledge: Option<Instant>, sid: SecurityId, on: Date, fact: StatusFact, i: nat)
    requires Fits(m, p) && i < |m.statuses| && TerminalRecord(m.statuses[i], sid) && m.statuses[i].validFrom > on
    requires p.statuses[i].None? && p.newStatuses == [Opened(sid, on, fact)]
    ensures !Consistent(Perform(m, p, knowledge))
  {
    var revised := Perform(m, p, knowledge);
    var opening := Opened(sid, on, fact);
    StampedOpen(Revise(m.statuses, p.statuses, knowledge), opening, knowledge);
    KeptByRevise(m.statuses, p.statuses, StampAll(p.newStatuses, knowledge), knowledge, i);
    TwoOpenStatuses(revised.statuses, Stamp(opening, knowledge), m.statuses[i], sid);
  }

  lemma {:induction false} UntouchedNone<P>(rs: seq<Record<P>>, i: nat)
    requires i < |rs|
    ensures Untouched(rs)[i].None?
  {
    if i > 0 {
      UntouchedNone(rs[1..], i - 1);
    }
  }

  /** A terminated security accepts no ticker change, exchange move or further termination, for any
      effective date and with or without a knowledge time: the guard refuses dates on or after the
      terminal one, the aggregate invariant refuses earlier ones. */
  lemma TerminationIsAbsorbing(m: Master, e: Event, knowledge: Option<Instant>)
    requires Terminated(m, e.sid)
    ensures Apply(m, e, knowledge).Failure?
  {
    var t :| t in m.statuses && TerminalRecord(t, e.sid);
    var i :| 0 <= i < |m.statuses| && m.statuses[i] == t;
    if t.validFrom <= e.effective {
      LateChangeRefused(m, e, knowledge, i);
    } else if PlanFor(m, e).Success? {
      PlanFits(m, e);
      var p := PlanFor(m, e).value;
      UntouchedNone(m.statuses, i);
      LaterStatusUntouched(m.statuses, e.sid, e.effective, i);
      match e
      case TickerChange(sid, mic, ticker, on, source) =>
        EarlyTickerChangeInconsistent(m, p, knowledge, sid, on, Identifier(Ticker, ticker, mic, "", source), i);
      case ExchangeMove(sid, _, toMic, _, ticker, on, source) =>
        EarlyTickerChangeInconsistent(m, p, knowledge, sid, on, Identifier(Ticker, ticker, toMic, "", source), i);
      case Delisting(sid, reason, detail, on) =>
        EarlyTerminationInconsistent(m, p, knowledge, sid, on, p.newStatuses[0].fact, i);
      case Acquisition(sid, _, _, on) =>
        EarlyTerminationInconsistent(m, p, knowledge, sid, on, p.newStatuses[0].fact, i);
    }
  }

  /** Everything the master records about one security. */
  ghost predicate SameHistory(a: Master, b: Master, sid: SecurityId) {
    Of(a.listings, sid) == Of(b.listings, sid) && Of(a.statuses, sid) == Of(b.statuses, sid)
    && Of(a.identifiers, sid) == Of(b.identifiers, sid)
  }

  lemma OpensForMembers<P>(rs: seq<Record<P>>, sid: SecurityId, knowledge: Option<Instant>)
    requires OpensFor(rs, sid)
    ensures forall r :: r in StampAll(rs, knowledge) ==> r.sid == sid
  {
  }

  /** An accepted event changes its own security only. */
  lemma EventLeavesOthers(m: Master, e: Event, knowledge: Option<Instant>, sid: SecurityId)
    requires Apply(m, e, knowledge).Success? && sid != e.sid
    ensures SameHistory(Apply(m, e, knowledge).value, m, sid)
  {
    PlansAreSound(m, e);
    hide PlanFor;
    var p := PlanFor(m, e).value;
    OpensForMembers(p.newListings, e.sid, knowledge);
    OpensForMembers(p.newStatuses, e.sid, knowledge);
    OpensForMembers(p.newIdentifiers, e.sid, knowledge);
    RevisionLeavesOthers(m.listings, p.listings, StampAll(p.newListings, knowledge), knowledge, e.sid, sid);
    RevisionLeavesOthers(m.statuses, p.statuses, StampAll(p.newStatuses, knowledge), knowledge, e.sid, sid);
    RevisionLeavesOthers(m.identifiers, p.identifiers, StampAll(p.newIdentifiers, knowledge), knowledge, e.sid, sid);
  }

  lemma SameHistoryTerminated(a: Master, b: Master, sid: SecurityId)
    requires SameHistory(a, b, sid) && Terminated(b, sid)
    ensures Terminated(a, sid)
  {
    InOf(a.statuses, sid);
    InOf(b.statuses, sid);
    var r :| r in b.statuses && TerminalRecord(r, sid);
    assert r in Of(a.statuses, sid);
  }

  /** Over any run of events whatever, a terminated security's history never changes again. */
  lemma {:induction false} TerminationIsForever(m: Master, log: seq<Stamped>, sid: SecurityId)
    requires Terminated(m, sid)
    ensures SameHistory(RunEvents(m, log), m, sid) && Terminated(RunEvents(m, log), sid)
    decreases |log|
  {
    hide SameHistory;
    hide Terminated;
    if log == [] {
      SameHistoryReflexive(m, sid);
    } else {
      var n := |log| - 1;
      TerminationIsForever(m, log[..n], sid);
      var before, s := RunEvents(m, log[..n]), log[n];
      if Apply(before, s.event, Some(s.at)).Success? {
        if s.event.sid == sid {
          TerminationIsAbsorbing(before, s.event, Some(s.at));
        } else {
          EventLeavesOthers(before, s.event, Some(s.at), sid);
          SameHistoryTerminated(Apply(before, s.event, Some(s.at)).value, before, sid);
          SameHistoryTransitive(Apply(before, s.event, Some(s.at)).value, before, m, sid);
        }
      }
    }
  }

  lemma SameHistoryReflexive(m: Master, sid: SecurityId)
    ensures SameHistory(m, m, sid)
  {
  }

  lemma SameHistoryTransitive(a: Master, b: Master, c: Master, sid: SecurityId)
    requires SameHistory(a, b, sid) && SameHistory(b, c, sid)
    ensures SameHistory(a, c, sid)
  {
  }
}
