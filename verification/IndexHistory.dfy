/** Replaying an anchor membership list and dated changes into ticker spells. */
module IndexHistory {
  import opened Domain
  import opened Ranges

  type Ticker = string

  datatype Spell = Spell(ticker: Ticker, from: Date, to: Option<Date>)

  datatype RenameEntry = RenameEntry(from: Ticker, to: Ticker)

  datatype Change = Change(effective: Date, renamed: seq<RenameEntry>, removed: seq<Ticker>, added: seq<Ticker>)

  datatype History = History(anchorDate: Date, anchor: seq<Ticker>, changes: seq<Change>)

  datatype ReplayError = Refused

  // ----- what a history means: sets of members over time, and which histories are acceptable

  function AfterRenames(s: set<Ticker>, renamed: seq<RenameEntry>): set<Ticker>
    decreases |renamed|
  {
    if renamed == [] then s else AfterRenames(s - {renamed[0].from} + {renamed[0].to}, renamed[1..])
  }

  function AfterRemovals(s: set<Ticker>, removed: seq<Ticker>): set<Ticker>
    decreases |removed|
  {
    if removed == [] then s else AfterRemovals(s - {removed[0]}, removed[1..])
  }

  function AfterAdditions(s: set<Ticker>, added: seq<Ticker>): set<Ticker>
    decreases |added|
  {
    if added == [] then s else AfterAdditions(s + {added[0]}, added[1..])
  }

  function AfterChange(s: set<Ticker>, c: Change): set<Ticker> {
    AfterAdditions(AfterRemovals(AfterRenames(s, c.renamed), c.removed), c.added)
  }

  /** The members once every change effective by `day` has been applied. */
  function MembersBy(s: set<Ticker>, changes: seq<Change>, day: Date): set<Ticker>
    decreases |changes|
  {
    if changes == [] || changes[0].effective > day then s
    else MembersBy(AfterChange(s, changes[0]), changes[1..], day)
  }

  /** A rename needs a current member and a free name. */
  predicate LegalRenames(s: set<Ticker>, renamed: seq<RenameEntry>)
    decreases |renamed|
  {
    renamed == [] ||
    (renamed[0].from in s && renamed[0].to !in s && LegalRenames(s - {renamed[0].from} + {renamed[0].to}, renamed[1..]))
  }

  predicate LegalRemovals(s: set<Ticker>, removed: seq<Ticker>)
    decreases |removed|
  {
    removed == [] || (removed[0] in s && LegalRemovals(s - {removed[0]}, removed[1..]))
  }

  predicate LegalAdditions(s: set<Ticker>, added: seq<Ticker>)
    decreases |added|
  {
    added == [] || (added[0] !in s && LegalAdditions(s + {added[0]}, added[1..]))
  }

  predicate Within(s: set<Ticker>, size: nat, tolerance: nat) {
    size - tolerance <= |s| <= size + tolerance
  }

  predicate LegalChange(s: set<Ticker>, c: Change, size: nat, tolerance: nat) {
    && LegalRenames(s, c.renamed)
    && LegalRemovals(AfterRenames(s, c.renamed), c.removed)
    && LegalAdditions(AfterRemovals(AfterRenames(s, c.renamed), c.removed), c.added)
    && Within(AfterChange(s, c), size, tolerance)
  }

  predicate LegalChanges(s: set<Ticker>, previous: Date, changes: seq<Change>, size: nat, tolerance: nat)
    decreases |changes|
  {
    changes == [] ||
    (previous <= changes[0].effective && LegalChange(s, changes[0], size, tolerance)
     && LegalChanges(AfterChange(s, changes[0]), changes[0].effective, changes[1..], size, tolerance))
  }

  /** Distinct anchor tickers, the expected number of them, and legal changes in date order. */
  predicate Legal(h: History, size: nat, tolerance: nat) {
    && LegalAdditions({}, h.anchor)
    && |AfterAdditions({}, h.anchor)| == size
    && LegalChanges(AfterAdditions({}, h.anchor), h.anchorDate, h.changes, size, tolerance)
  }

  function MembersOn(h: History, day: Date): set<Ticker> {
    MembersBy(AfterAdditions({}, h.anchor), h.changes, day)
  }

  // ----- the replay's state

  type Members = map<Ticker, Date>

  ghost predicate Closed(s: Spell, start: Date, now: Date) {
    s.to.Some? && start <= s.from <= s.to.value <= now
  }

  /** Open memberships began by now, finished spells ended by now, and spells of one ticker follow
      one another, the open one last. */
  ghost predicate Tidy(members: Members, spells: seq<Spell>, start: Date, now: Date) {
    && (forall t :: t in members ==> start <= members[t] <= now)
    && (forall i :: 0 <= i < |spells| ==> Closed(spells[i], start, now))
    && (forall i, j :: 0 <= i < j < |spells| && spells[i].ticker == spells[j].ticker ==> spells[i].to.value <= spells[j].from)
    && (forall i :: 0 <= i < |spells| && spells[i].ticker in members ==> spells[i].to.value <= members[spells[i].ticker])
  }

  predicate SpellCovers(s: Spell, t: Ticker, day: Date) {
    s.ticker == t && Contains(Range(s.from, s.to), day)
  }

  ghost predicate Covered(members: Members, spells: seq<Spell>, t: Ticker, day: Date) {
    (t in members && members[t] <= day) || exists i :: 0 <= i < |spells| && SpellCovers(spells[i], t, day)
  }

  /** Nothing before `now` is covered differently. */
  ghost predicate PastKept(m1: Members, s1: seq<Spell>, m2: Members, s2: seq<Spell>, now: Date) {
    forall t, day :: day < now ==> (Covered(m2, s2, t, day) <==> Covered(m1, s1, t, day))
  }

  /** Ending a membership turns it into a finished spell. */
  lemma EndMembership(members: Members, spells: seq<Spell>, t: Ticker, start: Date, now: Date)
    requires Tidy(members, spells, start, now) && t in members
    ensures var m, s := members - {t}, spells + [Spell(t, members[t], Some(now))];
            Tidy(m, s, start, now) && PastKept(members, spells, m, s, now)
  {
    var m, s := members - {t}, spells + [Spell(t, members[t], Some(now))];
    forall x, day | day < now
      ensures Covered(m, s, x, day) <==> Covered(members, spells, x, day)
    {
      if Covered(members, spells, x, day) {
        if x == t && members[t] <= day {
          assert SpellCovers(s[|spells|], x, day);
        } else if !(x in members && members[x] <= day) {
          var i :| 0 <= i < |spells| && SpellCovers(spells[i], x, day);
          assert SpellCovers(s[i], x, day);
        }
      }
      if Covered(m, s, x, day) && !(x in m && m[x] <= day) {
        var i :| 0 <= i < |s| && SpellCovers(s[i], x, day);
        if i < |spells| {
          assert SpellCovers(spells[i], x, day);
        }
      }
    }
  }

  /** Beginning a membership today changes nothing before today. */
  lemma BeginMembership(members: Members, spells: seq<Spell>, t: Ticker, start: Date, now: Date)
    requires Tidy(members, spells, start, now) && t !in members && start <= now
    ensures Tidy(members[t := now], spells, start, now) && PastKept(members, spells, members[t := now], spells, now)
  {
    forall x, day | day < now
      ensures Covered(members[t := now], spells, x, day) <==> Covered(members, spells, x, day)
    {
    }
  }

  lemma PastKeptThrough(m1: Members, s1: seq<Spell>, m2: Members, s2: seq<Spell>, m3: Members, s3: seq<Spell>, now: Date)
    requires PastKept(m1, s1, m2, s2, now) && PastKept(m2, s2, m3, s3, now)
    ensures PastKept(m1, s1, m3, s3, now)
  {
    forall t, day | day < now
      ensures Covered(m3, s3, t, day) <==> Covered(m1, s1, t, day)
    {
      assert Covered(m2, s2, t, day) <==> Covered(m1, s1, t, day);
    }
  }

  lemma PastKeptSelf(m: Members, s: seq<Spell>, now: Date)
    ensures PastKept(m, s, m, s, now)
  {
  }

  /** From now on exactly the open memberships are covered. */
  lemma NowIsMembers(members: Members, spells: seq<Spell>, start: Date, now: Date, t: Ticker, day: Date)
    requires Tidy(members, spells, start, now) && now <= day
    ensures Covered(members, spells, t, day) <==> t in members
  {
  }

  // ----- the loops of one change

  method ReplayRenames(members: Members, spells: seq<Spell>, renamed: seq<RenameEntry>, ghost start: Date, now: Date)
    returns (ok: bool, m: Members, s: seq<Spell>)
    requires Tidy(members, spells, start, now) && start <= now
    ensures ok <==> LegalRenames(members.Keys, renamed)
    ensures ok ==> m.Keys == AfterRenames(members.Keys, renamed)
    ensures ok ==> Tidy(m, s, start, now) && PastKept(members, spells, m, s, now)
  {
    m, s := members, spells;
    PastKeptSelf(members, spells, now);
    for i := 0 to |renamed|
      invariant LegalRenames(m.Keys, renamed[i..]) <==> LegalRenames(members.Keys, renamed)
      invariant AfterRenames(m.Keys, renamed[i..]) == AfterRenames(members.Keys, renamed)
      invariant Tidy(m, s, start, now) && PastKept(members, spells, m, s, now)
    {
      hide Tidy;
      hide PastKept;
      var entry := renamed[i];
      assert renamed[i..][1..] == renamed[i + 1..];
      if entry.from !in m || entry.to in m {
        return false, m, s;
      }
      ghost var m0, s0 := m, s;
      EndMembership(m, s, entry.from, start, now);
      s := s + [Spell(entry.from, m[entry.from], Some(now))];
      m := m - {entry.from};
      PastKeptThrough(members, spells, m0, s0, m, s, now);
      ghost var m1 := m;
      BeginMembership(m, s, entry.to, start, now);
      m := m[entry.to := now];
      PastKeptThrough(members, spells, m1, s, m, s, now);
      assert m.Keys == m0.Keys - {entry.from} + {entry.to};
    }
    return true, m, s;
  }

  method ReplayRemovals(members: Members, spells: seq<Spell>, removed: seq<Ticker>, ghost start: Date, now: Date)
    returns (ok: bool, m: Members, s: seq<Spell>)
    requires Tidy(members, spells, start, now) && start <= now
    ensures ok <==> LegalRemovals(members.Keys, removed)
    ensures ok ==> m.Keys == AfterRemovals(members.Keys, removed)
    ensures ok ==> Tidy(m, s, start, now) && PastKept(members, spells, m, s, now)
  {
    m, s := members, spells;
    PastKeptSelf(members, spells, now);
    for i := 0 to |removed|
      invariant LegalRemovals(m.Keys, removed[i..]) <==> LegalRemovals(members.Keys, removed)
      invariant AfterRemovals(m.Keys, removed[i..]) == AfterRemovals(members.Keys, removed)
      invariant Tidy(m, s, start, now) && PastKept(members, spells, m, s, now)
    {
      hide Tidy;
      hide PastKept;
      var ticker := removed[i];
      assert removed[i..][1..] == removed[i + 1..];
      if ticker !in m {
        return false, m, s;
      }
      ghost var m0, s0 := m, s;
      EndMembership(m, s, ticker, start, now);
      s := s + [Spell(ticker, m[ticker], Some(now))];
      m := m - {ticker};
      PastKeptThrough(members, spells, m0, s0, m, s, now);
      assert m.Keys == m0.Keys - {ticker};
    }
    return true, m, s;
  }

  method ReplayAdditions(members: Members, ghost spells: seq<Spell>, added: seq<Ticker>, ghost start: Date, now: Date)
    returns (ok: bool, m: Members)
    requires Tidy(members, spells, start, now) && start <= now
    ensures ok <==> LegalAdditions(members.Keys, added)
    ensures ok ==> m.Keys == AfterAdditions(members.Keys, added)
    ensures ok ==> Tidy(m, spells, start, now) && PastKept(members, spells, m, spells, now)
  {
    m := members;
    PastKeptSelf(members, spells, now);
    for i := 0 to |added|
      invariant LegalAdditions(m.Keys, added[i..]) <==> LegalAdditions(members.Keys, added)
      invariant AfterAdditions(m.Keys, added[i..]) == AfterAdditions(members.Keys, added)
      invariant Tidy(m, spells, start, now) && PastKept(members, spells, m, spells, now)
    {
      hide Tidy;
      hide PastKept;
      var ticker := added[i];
      assert added[i..][1..] == added[i + 1..];
      if ticker in m {
        return false, m;
      }
      ghost var m0 := m;
      BeginMembership(m, spells, ticker, start, now);
      m := m[ticker := now];
      PastKeptThrough(members, spells, m0, spells, m, spells, now);
      assert m.Keys == m0.Keys + {ticker};
    }
    return true, m;
  }

  method ReplayChange(members: Members, spells: seq<Spell>, c: Change, ghost start: Date, size: nat, tolerance: nat)
    returns (ok: bool, m: Members, s: seq<Spell>)
    requires Tidy(members, spells, start, c.effective) && start <= c.effective
    ensures ok <==> LegalChange(members.Keys, c, size, tolerance)
    ensures ok ==> m.Keys == AfterChange(members.Keys, c)
    ensures ok ==> Tidy(m, s, start, c.effective) && PastKept(members, spells, m, s, c.effective)
  {
    hide Tidy;
    hide PastKept;
    ok, m, s := ReplayRenames(members, spells, c.renamed, start, c.effective);
    if !ok {
      return;
    }
    ghost var m1, s1 := m, s;
    ok, m, s := ReplayRemovals(m, s, c.removed, start, c.effective);
    if !ok {
      return;
    }
    PastKeptThrough(members, spells, m1, s1, m, s, c.effective);
    ghost var m2 := m;
    ok, m := ReplayAdditions(m, s, c.added, start, c.effective);
    if !ok {
      return;
    }
    PastKeptThrough(members, spells, m2, s, m, s, c.effective);
    var count := |m|;
    assert |m| == |m.Keys|;
    ok := size - tolerance <= count <= size + tolerance;
  }

  // ----- the replay

  /** The coverage so far agrees with the history on every day before `now`. */
  ghost predicate PastRight(h: History, members: Members, spells: seq<Spell>, now: Date) {
    forall t, day :: h.anchorDate <= day < now ==> (Covered(members, spells, t, day) <==> t in MembersOn(h, day))
  }

  /** From `now` on the history continues from the open memberships with the changes left. */
  ghost predicate FutureFrom(h: History, members: Members, rest: seq<Change>, now: Date) {
    forall day :: now <= day ==> MembersOn(h, day) == MembersBy(members.Keys, rest, day)
  }

  lemma TidyLater(members: Members, spells: seq<Spell>, start: Date, now: Date, later: Date)
    requires Tidy(members, spells, start, now) && now <= later
    ensures Tidy(members, spells, start, later)
  {
  }

  /** Between one change and the next the open memberships are the members. */
  lemma WaitUntil(h: History, members: Members, spells: seq<Spell>, rest: seq<Change>, now: Date)
    requires Tidy(members, spells, h.anchorDate, now) && h.anchorDate <= now
    requires PastRight(h, members, spells, now) && FutureFrom(h, members, rest, now)
    requires rest != [] && now <= rest[0].effective
    ensures PastRight(h, members, spells, rest[0].effective)
  {
    forall t, day | h.anchorDate <= day < rest[0].effective
      ensures Covered(members, spells, t, day) <==> t in MembersOn(h, day)
    {
      if now <= day {
        NowIsMembers(members, spells, h.anchorDate, now, t, day);
        assert MembersOn(h, day) == MembersBy(members.Keys, rest, day);
      }
    }
  }

  lemma AfterOneChange(h: History, members: Members, spells: seq<Spell>, m: Members, s: seq<Spell>, rest: seq<Change>, now: Date)
    requires rest != [] && now <= rest[0].effective
    requires PastRight(h, members, spells, rest[0].effective) && FutureFrom(h, members, rest, now)
    requires PastKept(members, spells, m, s, rest[0].effective) && m.Keys == AfterChange(members.Keys, rest[0])
    ensures PastRight(h, m, s, rest[0].effective) && FutureFrom(h, m, rest[1..], rest[0].effective)
  {
    forall t, day | h.anchorDate <= day < rest[0].effective
      ensures Covered(m, s, t, day) <==> t in MembersOn(h, day)
    {
      assert Covered(m, s, t, day) <==> Covered(members, spells, t, day);
    }
    forall day | rest[0].effective <= day
      ensures MembersOn(h, day) == MembersBy(m.Keys, rest[1..], day)
    {
      assert MembersOn(h, day) == MembersBy(members.Keys, rest, day);
    }
  }

  ghost predicate SpellsRight(h: History, spells: seq<Spell>) {
    forall t, day :: h.anchorDate <= day ==>
      ((exists i :: 0 <= i < |spells| && SpellCovers(spells[i], t, day)) <==> t in MembersOn(h, day))
  }

  ghost predicate SpellsDisjoint(spells: seq<Spell>) {
    forall i, j :: 0 <= i < j < |spells| && spells[i].ticker == spells[j].ticker ==>
      EndsBefore(Range(spells[i].from, spells[i].to), Range(spells[j].from, spells[j].to))
  }

  // ----- the memberships still open at the end

  predicate Ends(spells: seq<Spell>, from: nat, members: Members, t: Ticker)
    requires t in members
  {
    exists i :: from <= i < |spells| && spells[i] == Spell(t, members[t], None)
  }

  /** One open-ended spell for each membership still open, and nothing else, after the finished ones. */
  ghost predicate Opened(members: Members, done: set<Ticker>, spells: seq<Spell>, all: seq<Spell>) {
    && |spells| <= |all| && all[..|spells|] == spells
    && (forall i :: |spells| <= i < |all| ==> all[i].ticker in done && all[i].ticker in members
                                              && all[i] == Spell(all[i].ticker, members[all[i].ticker], None))
    && (forall i, j :: |spells| <= i < j < |all| ==> all[i].ticker != all[j].ticker)
    && (forall t :: t in done && t in members ==> Ends(all, |spells|, members, t))
  }

  lemma OpenOne(members: Members, done: set<Ticker>, spells: seq<Spell>, all: seq<Spell>, t: Ticker)
    requires Opened(members, done, spells, all) && t in members && t !in done
    ensures Opened(members, done + {t}, spells, all + [Spell(t, members[t], None)])
  {
    var longer := all + [Spell(t, members[t], None)];
    assert longer[..|spells|] == spells;
    forall x | x in done + {t} && x in members
      ensures Ends(longer, |spells|, members, x)
    {
      if x == t {
        assert longer[|all|] == Spell(t, members[t], None);
      } else {
        assert Ends(all, |spells|, members, x);
        var i :| |spells| <= i < |all| && all[i] == Spell(x, members[x], None);
        assert longer[i] == all[i];
      }
    }
  }

  method OpenSpells(members: Members, spells: seq<Spell>) returns (all: seq<Spell>)
    ensures Opened(members, members.Keys, spells, all)
  {
    all := spells;
    var pending := members.Keys;
    while pending != {}
      invariant pending <= members.Keys
      invariant Opened(members, members.Keys - pending, spells, all)
    {
      var t :| t in pending;
      OpenOne(members, members.Keys - pending, spells, all, t);
      assert members.Keys - (pending - {t}) == members.Keys - pending + {t};
      all := all + [Spell(t, members[t], None)];
      pending := pending - {t};
    }
    assert members.Keys - {} == members.Keys;
  }

  /** The finished and the open spells together cover what the state covered. */
  lemma OpenedCovers(members: Members, spells: seq<Spell>, all: seq<Spell>, t: Ticker, day: Date)
    requires Opened(members, members.Keys, spells, all)
    ensures Covered(members, spells, t, day) <==> exists i :: 0 <= i < |all| && SpellCovers(all[i], t, day)
  {
    if t in members && members[t] <= day {
      assert Ends(all, |spells|, members, t);
      var i :| |spells| <= i < |all| && all[i] == Spell(t, members[t], None);
      assert SpellCovers(all[i], t, day);
    } else if Covered(members, spells, t, day) {
      var i :| 0 <= i < |spells| && SpellCovers(spells[i], t, day);
      assert all[..|spells|][i] == all[i];
      assert SpellCovers(all[i], t, day);
    }
    if i :| 0 <= i < |all| && SpellCovers(all[i], t, day) {
      if i < |spells| {
        assert all[..|spells|][i] == all[i];
        assert SpellCovers(spells[i], t, day);
      }
    }
  }

  lemma FinalCoverage(h: History, members: Members, spells: seq<Spell>, now: Date, all: seq<Spell>)
    requires Tidy(members, spells, h.anchorDate, now) && h.anchorDate <= now
    requires PastRight(h, members, spells, now) && FutureFrom(h, members, [], now)
    requires Opened(members, members.Keys, spells, all)
    ensures SpellsRight(h, all) && SpellsDisjoint(all)
  {
    forall t, day | h.anchorDate <= day
      ensures (exists i :: 0 <= i < |all| && SpellCovers(all[i], t, day)) <==> t in MembersOn(h, day)
    {
      OpenedCovers(members, spells, all, t, day);
      if now <= day {
        NowIsMembers(members, spells, h.anchorDate, now, t, day);
        assert MembersOn(h, day) == MembersBy(members.Keys, [], day);
      }
    }
    forall i, j | 0 <= i < j < |all| && all[i].ticker == all[j].ticker
      ensures EndsBefore(Range(all[i].from, all[i].to), Range(all[j].from, all[j].to))
    {
      assert i < |spells| ==> all[..|spells|][i] == all[i];
      assert j < |spells| ==> all[..|spells|][j] == all[j];
    }
  }

  // ----- how many members there are

  lemma {:induction false} CountStaysWithin(s: set<Ticker>, previous: Date, changes: seq<Change>, size: nat, tolerance: nat, day: Date)
    requires LegalChanges(s, previous, changes, size, tolerance) && Within(s, size, tolerance)
    ensures Within(MembersBy(s, changes, day), size, tolerance)
    decreases |changes|
  {
    if changes != [] {
      CountStaysWithin(AfterChange(s, changes[0]), changes[0].effective, changes[1..], size, tolerance, day);
    }
  }

  /** A spell is found for exactly one ticker per member, so the number of tickers whose spell covers
      a date is within tolerance of the expected size on every date from the anchor on. */
  lemma CountWithinOnEveryDay(h: History, size: nat, tolerance: nat, spells: seq<Spell>, day: Date, covered: set<Ticker>)
    requires Legal(h, size, tolerance) && SpellsRight(h, spells) && h.anchorDate <= day
    requires forall t :: t in covered <==> exists i :: 0 <= i < |spells| && SpellCovers(spells[i], t, day)
    ensures size - tolerance <= |covered| <= size + tolerance
  {
    CountStaysWithin(AfterAdditions({}, h.anchor), h.anchorDate, h.changes, size, tolerance, day);
    assert covered == MembersOn(h, day);
  }

  /** The replay of a whole history. It succeeds exactly on legal histories, and then for every date
      from the anchor on the tickers whose spell contains the date are exactly the members after all
      changes effective by then, and no two spells of one ticker share a date. */
  method ReplayIndexHistory(h: History, size: nat, tolerance: nat) returns (r: Result<seq<Spell>, ReplayError>)
    ensures r.Success? <==> Legal(h, size, tolerance)
    ensures r.Success? ==> SpellsRight(h, r.value) && SpellsDisjoint(r.value)
  {
    var none: Members := map[];
    var ok, members := ReplayAdditions(none, [], h.anchor, h.anchorDate, h.anchorDate);
    assert none.Keys == {};
    if !ok {
      return Failure(Refused);
    }
    assert |members| == |members.Keys|;
    if |members| != size {
      return Failure(Refused);
    }
    var spells: seq<Spell> := [];
    var previous := h.anchorDate;
    for i := 0 to |h.changes|
      invariant h.anchorDate <= previous
      invariant LegalChanges(members.Keys, previous, h.changes[i..], size, tolerance) <==> Legal(h, size, tolerance)
      invariant Tidy(members, spells, h.anchorDate, previous)
      invariant PastRight(h, members, spells, previous) && FutureFrom(h, members, h.changes[i..], previous)
    {
      hide Tidy;
      hide PastRight;
      hide FutureFrom;
      hide PastKept;
      hide LegalChange;
      var c := h.changes[i];
      assert h.changes[i..][1..] == h.changes[i + 1..];
      if c.effective < previous {
        return Failure(Refused);
      }
      TidyLater(members, spells, h.anchorDate, previous, c.effective);
      WaitUntil(h, members, spells, h.changes[i..], previous);
      ghost var m0, s0 := members, spells;
      ok, members, spells := ReplayChange(members, spells, c, h.anchorDate, size, tolerance);
      if !ok {
        return Failure(Refused);
      }
      AfterOneChange(h, m0, s0, members, spells, h.changes[i..], previous);
      previous := c.effective;
    }
    var all := OpenSpells(members, spells);
    FinalCoverage(h, members, spells, previous, all);
    return Success(all);
  }
}
