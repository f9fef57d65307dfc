/** Lifecycle events: each plans the records it closes and opens, and the result is revalidated. */
module Changes {
  import opened Domain
  import opened Ranges
  import opened Records
  import opened Masters
  import MasterCheck

  datatype ChangeError =
    | UnknownSecurity | AlreadyTerminated | NothingInForce | AmbiguousTicker | SameTicker | Rejected

  datatype Event =
    | TickerChange(sid: SecurityId, mic: string, newTicker: string, effective: Date, source: string)
    | ExchangeMove(sid: SecurityId, fromMic: string, toMic: string, currency: string, ticker: string, effective: Date, source: string)
    | Delisting(sid: SecurityId, reason: DelistingReason, detail: Option<string>, effective: Date)
    | Acquisition(sid: SecurityId, acquirer: Option<SecurityId>, acquirerName: Option<string>, effective: Date)

  /** The records an event closes, table by table, and those it opens. */
  datatype Plan = Plan(
    listings: Revisions<Listing>, newListings: seq<Record<Listing>>,
    statuses: Revisions<StatusFact>, newStatuses: seq<Record<StatusFact>>,
    identifiers: Revisions<Identifier>, newIdentifiers: seq<Record<Identifier>>)

  function Opened<P>(sid: SecurityId, from: Date, fact: P): Record<P> {
    Record(sid, from, None, None, None, fact)
  }

  function Closed<P>(r: Record<P>, on: Date): Record<P> {
    Record(r.sid, r.validFrom, Some(on), r.recordedAt, r.supersededAt, r.fact)
  }

  function ClosedListing(r: Record<Listing>, on: Date, reason: DelistingReason): Record<Listing> {
    Record(r.sid, r.validFrom, Some(on), r.recordedAt, r.supersededAt, Listing(r.fact.mic, r.fact.currency, Some(reason)))
  }

  // ----- guards and lookups

  /** A current terminal status already effective on the date. */
  predicate TerminatedBy(statuses: seq<Record<StatusFact>>, sid: SecurityId, on: Date) {
    exists i :: 0 <= i < |statuses| && Current(statuses[i]) && statuses[i].sid == sid
                && Terminal(statuses[i].fact.status) && statuses[i].validFrom <= on
  }

  predicate Affected<P>(r: Record<P>, sid: SecurityId, on: Date) {
    Current(r) && r.sid == sid && InForce(r, on)
  }

  predicate IsTicker(r: Record<Identifier>, sid: SecurityId, mic: string, on: Date) {
    Affected(r, sid, on) && r.fact.kind == Ticker && r.fact.mic == mic
  }

  predicate IsListing(r: Record<Listing>, sid: SecurityId, mic: string, on: Date) {
    Affected(r, sid, on) && r.fact.mic == mic
  }

  /** Every current ticker of the security on the exchange in force on the date. */
  function TickersInForce(ids: seq<Record<Identifier>>, sid: SecurityId, mic: string, on: Date): seq<Record<Identifier>> {
    if ids == [] then []
    else if IsTicker(ids[0], sid, mic, on) then [ids[0]] + TickersInForce(ids[1..], sid, mic, on)
    else TickersInForce(ids[1..], sid, mic, on)
  }

  function CloseTickers(ids: seq<Record<Identifier>>, sid: SecurityId, mic: string, on: Date): (r: Revisions<Identifier>)
    ensures |r| == |ids|
  {
    if ids == [] then []
    else [if IsTicker(ids[0], sid, mic, on) then Some(Closed(ids[0], on)) else None] + CloseTickers(ids[1..], sid, mic, on)
  }

  function Untouched<P>(rs: seq<Record<P>>): (r: Revisions<P>)
    ensures |r| == |rs|
  {
    if rs == [] then [] else [None] + Untouched(rs[1..])
  }

  /** Closes the first matching listing only. */
  function CloseFirstListing(rs: seq<Record<Listing>>, sid: SecurityId, mic: string, on: Date, reason: DelistingReason)
    : (r: Revisions<Listing>)
    ensures |r| == |rs|
  {
    if rs == [] then []
    else if IsListing(rs[0], sid, mic, on) then [Some(ClosedListing(rs[0], on, reason))] + Untouched(rs[1..])
    else [None] + CloseFirstListing(rs[1..], sid, mic, on, reason)
  }

  predicate HasListing(rs: seq<Record<Listing>>, sid: SecurityId, mic: string, on: Date) {
    exists i :: 0 <= i < |rs| && IsListing(rs[i], sid, mic, on)
  }

  function CloseAll<P>(rs: seq<Record<P>>, sid: SecurityId, on: Date): (r: Revisions<P>)
    ensures |r| == |rs|
  {
    if rs == [] then []
    else [if Affected(rs[0], sid, on) then Some(Closed(rs[0], on)) else None] + CloseAll(rs[1..], sid, on)
  }

  function CloseAllListings(rs: seq<Record<Listing>>, sid: SecurityId, on: Date, reason: DelistingReason): (r: Revisions<Listing>)
    ensures |r| == |rs|
  {
    if rs == [] then []
    else [if Affected(rs[0], sid, on) then Some(ClosedListing(rs[0], on, reason)) else None]
         + CloseAllListings(rs[1..], sid, on, reason)
  }

  // ----- planning

  function PlanTickerChange(m: Master, sid: SecurityId, mic: string, newTicker: string, on: Date, source: string)
    : Result<Plan, ChangeError>
  {
    var found := TickersInForce(m.identifiers, sid, mic, on);
    if sid !in m.securities then Failure(UnknownSecurity)
    else if TerminatedBy(m.statuses, sid, on) then Failure(AlreadyTerminated)
    else if |found| > 1 then Failure(AmbiguousTicker)
    else if found == [] then Failure(NothingInForce)
    else if found[0].fact.value == newTicker then Failure(SameTicker)
    else Success(Plan(Untouched(m.listings), [], Untouched(m.statuses), [],
                      CloseTickers(m.identifiers, sid, mic, on),
                      [Opened(sid, on, Identifier(Ticker, newTicker, mic, "", source))]))
  }

  function PlanExchangeMove(m: Master, sid: SecurityId, fromMic: string, toMic: string, currency: string, ticker: string,
                            on: Date, source: string): Result<Plan, ChangeError>
  {
    if sid !in m.securities then Failure(UnknownSecurity)
    else if TerminatedBy(m.statuses, sid, on) then Failure(AlreadyTerminated)
    else if !HasListing(m.listings, sid, fromMic, on) then Failure(NothingInForce)
    else if |TickersInForce(m.identifiers, sid, fromMic, on)| > 1 then Failure(AmbiguousTicker)
    else Success(Plan(CloseFirstListing(m.listings, sid, fromMic, on, ExchangeMoveExit),
                      [Opened(sid, on, Listing(toMic, currency, None))],
                      Untouched(m.statuses), [],
                      CloseTickers(m.identifiers, sid, fromMic, on),
                      [Opened(sid, on, Identifier(Ticker, ticker, toMic, "", source))]))
  }

  function PlanTermination(m: Master, sid: SecurityId, on: Date, status: SecurityStatus, reason: DelistingReason,
                           text: string, related: Option<SecurityId>): Result<Plan, ChangeError>
  {
    if sid !in m.securities then Failure(UnknownSecurity)
    else if TerminatedBy(m.statuses, sid, on) then Failure(AlreadyTerminated)
    else if related.Some? && related.value !in m.securities then Failure(UnknownSecurity)
    else Success(Plan(CloseAllListings(m.listings, sid, on, reason), [],
                      CloseAll(m.statuses, sid, on), [Opened(sid, on, StatusFact(status, text, related))],
                      CloseAll(m.identifiers, sid, on), []))
  }

  function ReasonText(reason: DelistingReason): string {
    match reason
    case FailureExit => "failure"
    case AcquisitionExit => "acquisition"
    case VoluntaryExit => "voluntary"
    case RegulatoryExit => "regulatory"
    case ExchangeMoveExit => "exchange_move"
    case UnknownExit => "unknown"
  }

  function TextOr(detail: Option<string>, reason: DelistingReason): string {
    if detail.Some? then detail.value else ReasonText(reason)
  }

  function PlanFor(m: Master, e: Event): Result<Plan, ChangeError> {
    match e
    case TickerChange(sid, mic, newTicker, on, source) => PlanTickerChange(m, sid, mic, newTicker, on, source)
    case ExchangeMove(sid, fromMic, toMic, currency, ticker, on, source) =>
      PlanExchangeMove(m, sid, fromMic, toMic, currency, ticker, on, source)
    case Delisting(sid, reason, detail, on) =>
      PlanTermination(m, sid, on, if reason.FailureExit? then Liquidated else Delisted, reason, TextOr(detail, reason), None)
    case Acquisition(sid, acquirer, acquirerName, on) =>
      PlanTermination(m, sid, on, Acquired, AcquisitionExit, TextOr(acquirerName, AcquisitionExit), acquirer)
  }

  // ----- applying

  function StampAll<P>(rs: seq<Record<P>>, knowledge: Option<Instant>): (r: seq<Record<P>>)
    ensures |r| == |rs| && forall i :: 0 <= i < |r| ==> r[i] == Stamp(rs[i], knowledge)
  {
    seq(|rs|, i requires 0 <= i < |rs| => Stamp(rs[i], knowledge))
  }

  predicate Fits(m: Master, p: Plan) {
    |m.listings| == |p.listings| && |m.statuses| == |p.statuses| && |m.identifiers| == |p.identifiers|
  }

  function Perform(m: Master, p: Plan, knowledge: Option<Instant>): Master
    requires Fits(m, p)
  {
    Master(m.securities,
           Revise(m.listings, p.listings, knowledge) + StampAll(p.newListings, knowledge),
           Revise(m.statuses, p.statuses, knowledge) + StampAll(p.newStatuses, knowledge),
           Revise(m.identifiers, p.identifiers, knowledge) + StampAll(p.newIdentifiers, knowledge))
  }

  lemma PlanFits(m: Master, e: Event)
    ensures PlanFor(m, e).Success? ==> Fits(m, PlanFor(m, e).value)
  {
  }

  /** Supersede and append with a knowledge time, overwrite without; then validate the result. */
  ghost function Apply(m: Master, e: Event, knowledge: Option<Instant>): Result<Master, ChangeError> {
    PlanFits(m, e);
    match PlanFor(m, e)
    case Failure(error) => Failure(error)
    case Success(p) =>
      var revised := Perform(m, p, knowledge);
      if RecordsWellFormed(revised) && Consistent(revised) then Success(revised) else Failure(Rejected)
  }

  method ApplyEvent(m: Master, e: Event, knowledge: Option<Instant>) returns (r: Result<Master, ChangeError>)
    ensures r == Apply(m, e, knowledge)
  {
    PlanFits(m, e);
    var plan := PlanFor(m, e);
    if plan.Failure? {
      return Failure(plan.error);
    }
    var revised := Perform(m, plan.value, knowledge);
    var consistent := MasterCheck.CheckMaster(revised);
    r := if RecordsWellFormed(revised) && consistent then Success(revised) else Failure(Rejected);
  }

  // ----- every plan closes only current records of its own security

  ghost predicate OpensFor<P>(rs: seq<Record<P>>, sid: SecurityId) {
    forall i :: 0 <= i < |rs| ==> Current(rs[i]) && rs[i].sid == sid
  }

  ghost predicate SoundTable<P>(rs: seq<Record<P>>, revs: Revisions<P>, added: seq<Record<P>>, sid: SecurityId) {
    Revises(rs, revs) && Touches(rs, revs, sid) && OpensFor(added, sid)
  }

  ghost predicate SoundPlan(m: Master, p: Plan, sid: SecurityId) {
    && SoundTable(m.listings, p.listings, p.newListings, sid)
    && SoundTable(m.statuses, p.statuses, p.newStatuses, sid)
    && SoundTable(m.identifiers, p.identifiers, p.newIdentifiers, sid)
  }

  lemma {:induction false} UntouchedSound<P>(rs: seq<Record<P>>, sid: SecurityId)
    ensures Revises(rs, Untouched(rs)) && Touches(rs, Untouched(rs), sid)
  {
    if rs != [] {
      UntouchedSound(rs[1..], sid);
      assert forall i :: 0 < i < |rs| ==> Untouched(rs)[i] == Untouched(rs[1..])[i - 1];
    }
  }

  lemma {:induction false} CloseTickersSound(ids: seq<Record<Identifier>>, sid: SecurityId, mic: string, on: Date)
    ensures Revises(ids, CloseTickers(ids, sid, mic, on)) && Touches(ids, CloseTickers(ids, sid, mic, on), sid)
  {
    if ids != [] {
      CloseTickersSound(ids[1..], sid, mic, on);
      assert forall i :: 0 < i < |ids| ==> CloseTickers(ids, sid, mic, on)[i] == CloseTickers(ids[1..], sid, mic, on)[i - 1];
    }
  }

  lemma {:induction false} CloseFirstListingSound(rs: seq<Record<Listing>>, sid: SecurityId, mic: string, on: Date, reason: DelistingReason)
    ensures var revs := CloseFirstListing(rs, sid, mic, on, reason); Revises(rs, revs) && Touches(rs, revs, sid)
  {
    if rs != [] {
      CloseFirstListingSound(rs[1..], sid, mic, on, reason);
      UntouchedSound(rs[1..], sid);
      var revs := CloseFirstListing(rs, sid, mic, on, reason);
      assert forall i :: 0 < i < |rs| ==> revs[i] == revs[1..][i - 1];
    }
  }

  lemma {:induction false} CloseAllSound<P>(rs: seq<Record<P>>, sid: SecurityId, on: Date)
    ensures Revises(rs, CloseAll(rs, sid, on)) && Touches(rs, CloseAll(rs, sid, on), sid)
  {
    if rs != [] {
      CloseAllSound(rs[1..], sid, on);
      assert forall i :: 0 < i < |rs| ==> CloseAll(rs, sid, on)[i] == CloseAll(rs[1..], sid, on)[i - 1];
    }
  }

  lemma {:induction false} CloseAllListingsSound(rs: seq<Record<Listing>>, sid: SecurityId, on: Date, reason: DelistingReason)
    ensures var revs := CloseAllListings(rs, sid, on, reason); Revises(rs, revs) && Touches(rs, revs, sid)
  {
    if rs != [] {
      CloseAllListingsSound(rs[1..], sid, on, reason);
      assert forall i :: 0 < i < |rs| ==>
               CloseAllListings(rs, sid, on, reason)[i] == CloseAllListings(rs[1..], sid, on, reason)[i - 1];
    }
  }

  lemma PlansAreSound(m: Master, e: Event)
    requires PlanFor(m, e).Success?
    ensures SoundPlan(m, PlanFor(m, e).value, e.sid)
  {
    UntouchedSound(m.listings, e.sid);
    UntouchedSound(m.statuses, e.sid);
    match e
    case TickerChange(sid, mic, _, on, _) =>
      CloseTickersSound(m.identifiers, sid, mic, on);
    case ExchangeMove(sid, fromMic, _, _, _, on, _) =>
      CloseFirstListingSound(m.listings, sid, fromMic, on, ExchangeMoveExit);
      CloseTickersSound(m.identifiers, sid, fromMic, on);
    case Delisting(sid, reason, _, on) =>
      CloseAllListingsSound(m.listings, sid, on, reason);
      CloseAllSound(m.statuses, sid, on);
      CloseAllSound(m.identifiers, sid, on);
    case Acquisition(sid, _, _, on) =>
      CloseAllListingsSound(m.listings, sid, on, AcquisitionExit);
      CloseAllSound(m.statuses, sid, on);
      CloseAllSound(m.identifiers, sid, on);
  }
}
