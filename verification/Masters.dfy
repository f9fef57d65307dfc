/** The security master aggregate and its cross-record invariant. */
module Masters {
  import opened Domain
  import opened Ranges
  import opened Records
  import Sorting

  datatype SecurityStatus = Active | Suspended | Delisted | Acquired | Liquidated

  datatype IdentifierKind = Ticker | Isin | Sedol | Cusip | ProviderCode

  datatype Listing = Listing(mic: string, currency: string, reason: Option<DelistingReason>)

  datatype StatusFact = StatusFact(status: SecurityStatus, reason: string, related: Option<SecurityId>)

  /** An absent exchange or provider is the empty string. */
  datatype Identifier = Identifier(kind: IdentifierKind, value: string, mic: string, provider: string, source: string)

  datatype Master = Master(
    securities: seq<SecurityId>, listings: seq<Record<Listing>>, statuses: seq<Record<StatusFact>>,
    identifiers: seq<Record<Identifier>>)

  predicate Terminal(s: SecurityStatus) {
    s == Delisted || s == Acquired || s == Liquidated
  }

  /** Single-record rules; a listing's reason for ending needs an end. */
  predicate RecordsWellFormed(m: Master) {
    && AllWellFormed(m.listings) && AllWellFormed(m.statuses) && AllWellFormed(m.identifiers)
    && forall i :: 0 <= i < |m.listings| ==> (m.listings[i].fact.reason.Some? ==> m.listings[i].validTo.Some?)
  }

  // ----- identifier map conflicts, as the code looks for them

  datatype Qualifier = Qualifier(kind: IdentifierKind, mic: string, provider: string)

  function QualifierOf(f: Identifier): Qualifier {
    Qualifier(f.kind, f.mic, f.provider)
  }

  function ByValue(ids: seq<Record<Identifier>>, value: string, q: Qualifier): seq<Record<Identifier>> {
    if ids == [] then []
    else if ids[0].fact.value == value && QualifierOf(ids[0].fact) == q then [ids[0]] + ByValue(ids[1..], value, q)
    else ByValue(ids[1..], value, q)
  }

  function BySecurity(ids: seq<Record<Identifier>>, sid: SecurityId, q: Qualifier): seq<Record<Identifier>> {
    if ids == [] then []
    else if ids[0].sid == sid && QualifierOf(ids[0].fact) == q then [ids[0]] + BySecurity(ids[1..], sid, q)
    else BySecurity(ids[1..], sid, q)
  }

  function RangesOf<P>(rs: seq<Record<P>>): (r: seq<Range>)
    ensures |r| == |rs|
    ensures forall i :: 0 <= i < |r| ==> r[i] == RangeOf(rs[i])
  {
    seq(|rs|, i requires 0 <= i < |rs| => RangeOf(rs[i]))
  }

  /** Overlapping pairs found one at a time, discarding the second record of each hit. */
  function OverlappingPairs(group: seq<Record<Identifier>>): seq<(Record<Identifier>, Record<Identifier>)>
    decreases |group|
  {
    var hit := FirstOverlap(RangesOf(group));
    if |group| <= 1 || hit.None? then []
    else
      var (i, j) := hit.value;
      [(group[i], group[j])] + OverlappingPairs(group[..j] + group[j + 1..])
  }

  /** No found pair maps one value to two securities. */
  predicate OneSecurity(group: seq<Record<Identifier>>) {
    var pairs := OverlappingPairs(group);
    forall i :: 0 <= i < |pairs| ==> pairs[i].0.sid == pairs[i].1.sid
  }

  /** No found pair gives one security two values. */
  predicate OneValue(group: seq<Record<Identifier>>) {
    var pairs := OverlappingPairs(group);
    forall i :: 0 <= i < |pairs| ==> pairs[i].0.fact.value == pairs[i].1.fact.value
  }

  ghost predicate ValuesUnique(ids: seq<Record<Identifier>>) {
    forall value, q :: OneSecurity(ByValue(ids, value, q))
  }

  ghost predicate SecuritiesUnique(ids: seq<Record<Identifier>>) {
    forall sid, q :: OneValue(BySecurity(ids, sid, q))
  }

  ghost predicate NoConflicts(ids: seq<Record<Identifier>>) {
    ValuesUnique(ids) && SecuritiesUnique(ids)
  }

  // ----- the aggregate invariant

  ghost predicate SidsKnown<P>(rs: seq<Record<P>>, securities: seq<SecurityId>) {
    forall r :: r in rs ==> r.sid in securities
  }

  ghost predicate StatusesDisjoint(statuses: seq<Record<StatusFact>>) {
    forall sid :: FirstOverlap(RangesOf(Of(statuses, sid))).None?
  }

  /** The record is over by the security's terminal date. */
  predicate EndsBy<P>(r: Record<P>, ended: Date) {
    r.validTo.Some? && r.validTo.value <= ended
  }

  ghost predicate NothingPastTerminal<P>(rs: seq<Record<P>>, statuses: seq<Record<StatusFact>>) {
    forall r, s :: r in rs && s in statuses && Terminal(s.fact.status) && s.sid == r.sid ==> EndsBy(r, s.validFrom)
  }

  /** What only current records must satisfy; superseded ones are retained history. */
  ghost predicate CurrentConsistent(listings: seq<Record<Listing>>, statuses: seq<Record<StatusFact>>, ids: seq<Record<Identifier>>) {
    && StatusesDisjoint(statuses)
    && NoConflicts(ids)
    && NothingPastTerminal(listings, statuses)
    && NothingPastTerminal(ids, statuses)
  }

  ghost predicate Consistent(m: Master) {
    && Sorting.NoDuplicates(m.securities)
    && SidsKnown(m.listings, m.securities) && SidsKnown(m.statuses, m.securities) && SidsKnown(m.identifiers, m.securities)
    && CurrentConsistent(CurrentOnly(m.listings), CurrentOnly(m.statuses), CurrentOnly(m.identifiers))
  }

  datatype MasterError = InvalidMaster

  /** Constructing a master validates every record and the aggregate. */
  ghost function Checked(m: Master): Result<Master, MasterError> {
    if RecordsWellFormed(m) && Consistent(m) then Success(m) else Failure(InvalidMaster)
  }

  // ----- queries

  /** The status of the first current period covering the date. */
  function StatusOn(statuses: seq<Record<StatusFact>>, sid: SecurityId, on: Date): Option<SecurityStatus> {
    if statuses == [] then None
    else if Current(statuses[0]) && statuses[0].sid == sid && InForce(statuses[0], on) then Some(statuses[0].fact.status)
    else StatusOn(statuses[1..], sid, on)
  }

  function ListingsOn(listings: seq<Record<Listing>>, sid: SecurityId, on: Date): seq<Record<Listing>> {
    if listings == [] then []
    else if Current(listings[0]) && listings[0].sid == sid && InForce(listings[0], on) then [listings[0]] + ListingsOn(listings[1..], sid, on)
    else ListingsOn(listings[1..], sid, on)
  }

  /** The listings in force are exactly the current ones of the security that cover the date. */
  lemma {:induction false} ListingsOnExactly(listings: seq<Record<Listing>>, sid: SecurityId, on: Date, r: Record<Listing>)
    ensures r in ListingsOn(listings, sid, on) <==> r in listings && Current(r) && r.sid == sid && InForce(r, on)
  {
    if listings != [] {
      ListingsOnExactly(listings[1..], sid, on, r);
      assert listings == [listings[0]] + listings[1..];
    }
  }

  ghost predicate CoveredBy(statuses: seq<Record<StatusFact>>, sid: SecurityId, on: Date, r: Record<StatusFact>) {
    r in statuses && Current(r) && r.sid == sid && InForce(r, on)
  }

  lemma {:induction false} StatusOnFinds(statuses: seq<Record<StatusFact>>, sid: SecurityId, on: Date)
    ensures StatusOn(statuses, sid, on).None? <==> forall r :: !CoveredBy(statuses, sid, on, r)
    ensures StatusOn(statuses, sid, on).Some? ==>
              exists r :: CoveredBy(statuses, sid, on, r) && r.fact.status == StatusOn(statuses, sid, on).value
  {
    if statuses != [] {
      StatusOnFinds(statuses[1..], sid, on);
      assert statuses == [statuses[0]] + statuses[1..];
      assert forall r :: CoveredBy(statuses, sid, on, r) <==>
                 CoveredBy(statuses[1..], sid, on, r) || (r == statuses[0] && CoveredBy([r], sid, on, r));
    }
  }

  /** In a consistent master the answer does not depend on the order of the records: a date is
      covered by at most one current period of a security. */
  lemma StatusIsUnambiguous(m: Master, sid: SecurityId, on: Date, r: Record<StatusFact>)
    requires Consistent(m) && CoveredBy(m.statuses, sid, on, r)
    ensures StatusOn(m.statuses, sid, on) == Some(r.fact.status)
  {
    StatusOnFinds(m.statuses, sid, on);
    var x :| CoveredBy(m.statuses, sid, on, x) && x.fact.status == StatusOn(m.statuses, sid, on).value;
    var own := Of(CurrentOnly(m.statuses), sid);
    CurrentOnlyTwice(m.statuses);
    InOf(CurrentOnly(m.statuses), sid);
    assert x in own && r in own;
    var i :| 0 <= i < |own| && own[i] == x;
    var j :| 0 <= j < |own| && own[j] == r;
    NothingReportedMeansDisjoint(RangesOf(own));
    assert Contains(RangesOf(own)[i], on) && Contains(RangesOf(own)[j], on);
    SameSlot(RangesOf(own), i, j);
  }

  lemma SameSlot(ranges: seq<Range>, i: nat, j: nat)
    requires Disjoint(ranges) && i < |ranges| && j < |ranges| && Overlap(ranges[i], ranges[j])
    ensures i == j
  {
  }
}
