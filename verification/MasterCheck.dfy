/** The aggregate check as it runs: grouping loops over the tables, proved against `Consistent`.

    Each loop builds its dictionary record by record, then tests group by group. */
module MasterCheck {
  import opened Domain
  import opened Ranges
  import opened Records
  import opened Masters
  import Sorting

  lemma {:induction false} CurrentAppend<P>(rs: seq<Record<P>>, r: Record<P>)
    ensures CurrentOnly(rs + [r]) == if Current(r) then CurrentOnly(rs) + [r] else CurrentOnly(rs)
  {
    CurrentConcat(rs, [r]);
    assert [r][1..] == [];
  }

  lemma OfAppend<P>(rs: seq<Record<P>>, r: Record<P>, sid: SecurityId)
    ensures Of(rs + [r], sid) == Of(rs, sid) + (if r.sid == sid then [r] else [])
  {
    OfConcat(rs, [r], sid);
    assert [r][1..] == [];
  }

  lemma {:induction false} ByValueAppend(ids: seq<Record<Identifier>>, r: Record<Identifier>, value: string, q: Qualifier)
    ensures ByValue(ids + [r], value, q)
         == ByValue(ids, value, q) + (if r.fact.value == value && QualifierOf(r.fact) == q then [r] else [])
  {
    if ids == [] {
      assert ids + [r] == [r];
      assert [r][1..] == [];
    } else {
      assert (ids + [r])[1..] == ids[1..] + [r];
      ByValueAppend(ids[1..], r, value, q);
    }
  }

  lemma {:induction false} BySecurityAppend(ids: seq<Record<Identifier>>, r: Record<Identifier>, sid: SecurityId, q: Qualifier)
    ensures BySecurity(ids + [r], sid, q)
         == BySecurity(ids, sid, q) + (if r.sid == sid && QualifierOf(r.fact) == q then [r] else [])
  {
    if ids == [] {
      assert ids + [r] == [r];
      assert [r][1..] == [];
    } else {
      assert (ids + [r])[1..] == ids[1..] + [r];
      BySecurityAppend(ids[1..], r, sid, q);
    }
  }

  lemma {:induction false} DistinctCount<T>(s: seq<T>)
    ensures |set x | x in s| <= |s|
    ensures Sorting.NoDuplicates(s) <==> |set x | x in s| == |s|
  {
    var all := set x | x in s;
    if s == [] {
      assert all == {};
    } else {
      var n := |s| - 1;
      var before := set x | x in s[..n];
      DistinctCount(s[..n]);
      assert s == s[..n] + [s[n]];
      assert all == before + {s[n]};
      if s[n] in before {
        var i :| 0 <= i < n && s[..n][i] == s[n];
        assert s[i] == s[n];
      } else {
        assert forall i :: 0 <= i < n ==> s[..n][i] in before;
      }
      assert Sorting.NoDuplicates(s) ==> Sorting.NoDuplicates(s[..n]);
    }
  }

  method CheckSids<P(==)>(rs: seq<Record<P>>, ids: set<SecurityId>, ghost securities: seq<SecurityId>) returns (ok: bool)
    requires forall sid :: sid in ids <==> sid in securities
    ensures ok <==> SidsKnown(rs, securities)
  {
    ok := true;
    for i := 0 to |rs|
      invariant ok <==> SidsKnown(rs[..i], securities)
    {
      assert rs[..i + 1] == rs[..i] + [rs[i]];
      if rs[i].sid !in ids {
        ok := false;
      }
    }
    assert rs[..|rs|] == rs;
  }

  method CheckStatuses(statuses: seq<Record<StatusFact>>) returns (ok: bool)
    ensures ok <==> StatusesDisjoint(CurrentOnly(statuses))
  {
    var bySecurity: map<SecurityId, seq<Record<StatusFact>>> := map[];
    for i := 0 to |statuses|
      invariant forall sid :: Of(CurrentOnly(statuses[..i]), sid) == if sid in bySecurity then bySecurity[sid] else []
    {
      var p := statuses[i];
      assert statuses[..i + 1] == statuses[..i] + [p];
      CurrentAppend(statuses[..i], p);
      if Current(p) {
        ghost var before := bySecurity;
        bySecurity := bySecurity[p.sid := (if p.sid in bySecurity then bySecurity[p.sid] else []) + [p]];
        forall sid
          ensures Of(CurrentOnly(statuses[..i + 1]), sid) == if sid in bySecurity then bySecurity[sid] else []
        {
          OfAppend(CurrentOnly(statuses[..i]), p, sid);
          assert Of(CurrentOnly(statuses[..i]), sid) == if sid in before then before[sid] else [];
        }
      }
    }
    assert statuses[..|statuses|] == statuses;
    ok := true;
    var left := bySecurity.Keys;
    while left != {}
      invariant left <= bySecurity.Keys
      invariant ok <==> forall sid :: sid in bySecurity.Keys - left ==> FirstOverlap(RangesOf(bySecurity[sid])).None?
      decreases |left|
    {
      ghost var some := Sorting.AnyMember(left);
      var sid :| sid in left;
      if FirstOverlap(RangesOf(bySecurity[sid])).Some? {
        ok := false;
      }
      left := left - {sid};
    }
    forall sid
      ensures sid !in bySecurity ==> FirstOverlap(RangesOf(Of(CurrentOnly(statuses), sid))).None?
    {
      if sid !in bySecurity {
        NothingReportedMeansDisjoint(RangesOf(Of(CurrentOnly(statuses), sid)));
      }
    }
  }

  method CheckByValue(ids: seq<Record<Identifier>>) returns (ok: bool)
    ensures ok <==> ValuesUnique(CurrentOnly(ids))
  {
    var groups: map<(string, Qualifier), seq<Record<Identifier>>> := map[];
    for i := 0 to |ids|
      invariant forall value, q :: ByValue(CurrentOnly(ids[..i]), value, q) == if (value, q) in groups then groups[(value, q)] else []
    {
      var r := ids[i];
      assert ids[..i + 1] == ids[..i] + [r];
      CurrentAppend(ids[..i], r);
      if Current(r) {
        var key := (r.fact.value, QualifierOf(r.fact));
        ghost var before := groups;
        groups := groups[key := (if key in groups then groups[key] else []) + [r]];
        forall value, q
          ensures ByValue(CurrentOnly(ids[..i + 1]), value, q) == if (value, q) in groups then groups[(value, q)] else []
        {
          ByValueAppend(CurrentOnly(ids[..i]), r, value, q);
          assert ByValue(CurrentOnly(ids[..i]), value, q) == if (value, q) in before then before[(value, q)] else [];
        }
      }
    }
    assert ids[..|ids|] == ids;
    ok := true;
    var left := groups.Keys;
    while left != {}
      invariant left <= groups.Keys
      invariant ok <==> forall key :: key in groups.Keys - left ==> OneSecurity(groups[key])
      decreases |left|
    {
      hide OneSecurity;
      var key :| key in left;
      if !OneSecurity(groups[key]) {
        ok := false;
      }
      left := left - {key};
    }
    NoPairs([]);
    forall key | key in groups
      ensures groups[key] == ByValue(CurrentOnly(ids), key.0, key.1)
    {
      assert key == (key.0, key.1);
    }
    assert forall value, q :: (value, q) !in groups ==> ByValue(CurrentOnly(ids), value, q) == [];
  }

  lemma NoPairs(group: seq<Record<Identifier>>)
    requires |group| <= 1
    ensures OneSecurity(group) && OneValue(group)
  {
  }

  method CheckBySecurity(ids: seq<Record<Identifier>>) returns (ok: bool)
    ensures ok <==> SecuritiesUnique(CurrentOnly(ids))
  {
    var groups: map<(SecurityId, Qualifier), seq<Record<Identifier>>> := map[];
    for i := 0 to |ids|
      invariant forall sid, q :: BySecurity(CurrentOnly(ids[..i]), sid, q) == if (sid, q) in groups then groups[(sid, q)] else []
    {
      var r := ids[i];
      assert ids[..i + 1] == ids[..i] + [r];
      CurrentAppend(ids[..i], r);
      if Current(r) {
        var key := (r.sid, QualifierOf(r.fact));
        ghost var before := groups;
        groups := groups[key := (if key in groups then groups[key] else []) + [r]];
        forall sid, q
          ensures BySecurity(CurrentOnly(ids[..i + 1]), sid, q) == if (sid, q) in groups then groups[(sid, q)] else []
        {
          BySecurityAppend(CurrentOnly(ids[..i]), r, sid, q);
          assert BySecurity(CurrentOnly(ids[..i]), sid, q) == if (sid, q) in before then before[(sid, q)] else [];
        }
      }
    }
    assert ids[..|ids|] == ids;
    ok := true;
    var left := groups.Keys;
    while left != {}
      invariant left <= groups.Keys
      invariant ok <==> forall key :: key in groups.Keys - left ==> OneValue(groups[key])
      decreases |left|
    {
      hide OneValue;
      var key :| key in left;
      if !OneValue(groups[key]) {
        ok := false;
      }
      left := left - {key};
    }
    NoPairs([]);
    forall key | key in groups
      ensures groups[key] == BySecurity(CurrentOnly(ids), key.0, key.1)
    {
      assert key == (key.0, key.1);
    }
    assert forall sid, q :: (sid, q) !in groups ==> BySecurity(CurrentOnly(ids), sid, q) == [];
  }

  ghost predicate EarliestTerminal(statuses: seq<Record<StatusFact>>, terminalFrom: map<SecurityId, Date>) {
    && (forall s :: s in CurrentOnly(statuses) && Terminal(s.fact.status) ==> s.sid in terminalFrom && terminalFrom[s.sid] <= s.validFrom)
    && (forall sid :: sid in terminalFrom ==>
          exists s :: s in CurrentOnly(statuses) && Terminal(s.fact.status) && s.sid == sid && s.validFrom == terminalFrom[sid])
  }

  method FindTerminals(statuses: seq<Record<StatusFact>>) returns (terminalFrom: map<SecurityId, Date>)
    ensures EarliestTerminal(statuses, terminalFrom)
  {
    terminalFrom := map[];
    for i := 0 to |statuses|
      invariant EarliestTerminal(statuses[..i], terminalFrom)
    {
      var p := statuses[i];
      assert statuses[..i + 1] == statuses[..i] + [p];
      CurrentAppend(statuses[..i], p);
      ghost var before, current := terminalFrom, CurrentOnly(statuses[..i]);
      assert forall s :: s in CurrentOnly(statuses[..i + 1]) <==> s in current || (Current(p) && s == p);
      if Current(p) && Terminal(p.fact.status) {
        terminalFrom := terminalFrom[p.sid := Min(p.validFrom, if p.sid in terminalFrom then terminalFrom[p.sid] else p.validFrom)];
        forall sid | sid in terminalFrom
          ensures exists s :: s in CurrentOnly(statuses[..i + 1]) && Terminal(s.fact.status) && s.sid == sid
                              && s.validFrom == terminalFrom[sid]
        {
          if sid != p.sid || (sid in before && before[sid] < p.validFrom) {
            var s :| s in current && Terminal(s.fact.status) && s.sid == sid && s.validFrom == before[sid];
            assert s in CurrentOnly(statuses[..i + 1]);
          } else {
            assert p in CurrentOnly(statuses[..i + 1]);
          }
        }
      } else {
        forall sid | sid in terminalFrom
          ensures exists s :: s in CurrentOnly(statuses[..i + 1]) && Terminal(s.fact.status) && s.sid == sid
                              && s.validFrom == terminalFrom[sid]
        {
          var s :| s in current && Terminal(s.fact.status) && s.sid == sid && s.validFrom == terminalFrom[sid];
          assert s in CurrentOnly(statuses[..i + 1]);
        }
      }
    }
    assert statuses[..|statuses|] == statuses;
  }

  ghost predicate EndsInTime<P>(r: Record<P>, statuses: seq<Record<StatusFact>>) {
    forall s :: s in statuses && Terminal(s.fact.status) && s.sid == r.sid ==> EndsBy(r, s.validFrom)
  }

  lemma EarliestDecides<P>(r: Record<P>, statuses: seq<Record<StatusFact>>, terminalFrom: map<SecurityId, Date>)
    requires EarliestTerminal(statuses, terminalFrom)
    ensures EndsInTime(r, CurrentOnly(statuses)) <==> (r.sid in terminalFrom ==> EndsBy(r, terminalFrom[r.sid]))
  {
    if r.sid in terminalFrom {
      var s :| s in CurrentOnly(statuses) && Terminal(s.fact.status) && s.sid == r.sid && s.validFrom == terminalFrom[r.sid];
    }
  }

  method CheckEnds<P(==)>(rs: seq<Record<P>>, ghost statuses: seq<Record<StatusFact>>, terminalFrom: map<SecurityId, Date>)
    returns (ok: bool)
    requires EarliestTerminal(statuses, terminalFrom)
    ensures ok <==> NothingPastTerminal(CurrentOnly(rs), CurrentOnly(statuses))
  {
    ok := true;
    for i := 0 to |rs|
      invariant ok <==> forall r :: r in CurrentOnly(rs[..i]) ==> EndsInTime(r, CurrentOnly(statuses))
    {
      hide EarliestTerminal;
      hide EndsInTime;
      var r := rs[i];
      assert rs[..i + 1] == rs[..i] + [r];
      CurrentAppend(rs[..i], r);
      EarliestDecides(r, statuses, terminalFrom);
      if Current(r) && r.sid in terminalFrom && !EndsBy(r, terminalFrom[r.sid]) {
        ok := false;
      }
      assert forall x :: x in CurrentOnly(rs[..i + 1]) <==> x in CurrentOnly(rs[..i]) || (Current(r) && x == r);
    }
    assert rs[..|rs|] == rs;
  }

  /** The whole validator: it accepts exactly the consistent masters. */
  method CheckMaster(m: Master) returns (ok: bool)
    ensures ok <==> Consistent(m)
  {
    hide CurrentOnly;
    hide NothingPastTerminal;
    hide StatusesDisjoint;
    hide ValuesUnique;
    hide SecuritiesUnique;
    hide SidsKnown;
    var ids := set x | x in m.securities;
    DistinctCount(m.securities);
    var distinct := |ids| == |m.securities|;
    var listingsKnown := CheckSids(m.listings, ids, m.securities);
    var statusesKnown := CheckSids(m.statuses, ids, m.securities);
    var identifiersKnown := CheckSids(m.identifiers, ids, m.securities);
    var statusesDisjoint := CheckStatuses(m.statuses);
    var oneSecurity := CheckByValue(m.identifiers);
    var oneValue := CheckBySecurity(m.identifiers);
    var terminalFrom := FindTerminals(m.statuses);
    var listingsEnd := CheckEnds(m.listings, m.statuses, terminalFrom);
    var identifiersEnd := CheckEnds(m.identifiers, m.statuses, terminalFrom);
    ok := distinct && listingsKnown && statusesKnown && identifiersKnown && statusesDisjoint && oneSecurity && oneValue
          && listingsEnd && identifiersEnd;
  }
}
