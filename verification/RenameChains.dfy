/** Ticker rename chains:
    union-find whose lookups halve paths as they go. */
module RenameChains {

  datatype Rename = Rename(from: string, to: string)

  // ----- what it means for tickers to be linked

  ghost predicate Linked(renames: seq<Rename>, x: string, y: string) {
    exists k :: 0 <= k < |renames| && (renames[k] == Rename(x, y) || renames[k] == Rename(y, x))
  }

  ghost predicate IsPath(renames: seq<Rename>, p: seq<string>) {
    |p| > 0 && forall i :: 0 <= i < |p| - 1 ==> Linked(renames, p[i], p[i + 1])
  }

  ghost predicate PathBetween(renames: seq<Rename>, p: seq<string>, x: string, y: string) {
    IsPath(renames, p) && p[0] == x && p[|p| - 1] == y
  }

  /** A chain of rename entries, read in either direction, leads from one ticker to the other. */
  ghost predicate Connected(renames: seq<Rename>, x: string, y: string) {
    exists p :: PathBetween(renames, p, x, y)
  }

  lemma ConnectedToSelf(renames: seq<Rename>, x: string)
    ensures Connected(renames, x, x)
  {
    assert PathBetween(renames, [x], x, x);
  }

  lemma ConnectedByEntry(renames: seq<Rename>, x: string, y: string)
    requires Linked(renames, x, y)
    ensures Connected(renames, x, y)
  {
    assert PathBetween(renames, [x, y], x, y);
  }

  function Reversed(p: seq<string>): (r: seq<string>)
    ensures |r| == |p| && forall i :: 0 <= i < |p| ==> r[i] == p[|p| - 1 - i]
  {
    seq(|p|, i requires 0 <= i < |p| => p[|p| - 1 - i])
  }

  lemma ConnectedBack(renames: seq<Rename>, x: string, y: string)
    requires Connected(renames, x, y)
    ensures Connected(renames, y, x)
  {
    var p :| PathBetween(renames, p, x, y);
    var r := Reversed(p);
    forall i | 0 <= i < |r| - 1
      ensures Linked(renames, r[i], r[i + 1])
    {
      assert Linked(renames, p[|p| - 2 - i], p[|p| - 2 - i + 1]);
    }
    assert PathBetween(renames, r, y, x);
  }

  lemma ConnectedThrough(renames: seq<Rename>, x: string, y: string, z: string)
    requires Connected(renames, x, y) && Connected(renames, y, z)
    ensures Connected(renames, x, z)
  {
    var p :| PathBetween(renames, p, x, y);
    var q :| PathBetween(renames, q, y, z);
    var r := p + q[1..];
    forall i | 0 <= i < |r| - 1
      ensures Linked(renames, r[i], r[i + 1])
    {
      if i < |p| - 1 {
        assert Linked(renames, p[i], p[i + 1]);
      } else {
        var j := i - (|p| - 1);
        assert r[i] == q[j] && r[i + 1] == q[j + 1];
      }
    }
    assert PathBetween(renames, r, x, z);
  }

  lemma ConnectedWithMore(renames: seq<Rename>, more: seq<Rename>, x: string, y: string)
    requires renames <= more && Connected(renames, x, y)
    ensures Connected(more, x, y)
  {
    var p :| PathBetween(renames, p, x, y);
    forall i | 0 <= i < |p| - 1
      ensures Linked(more, p[i], p[i + 1])
    {
      var k :| 0 <= k < |renames| && (renames[k] == Rename(p[i], p[i + 1]) || renames[k] == Rename(p[i + 1], p[i]));
      assert more[k] == renames[k];
    }
    assert PathBetween(more, p, x, y);
  }

  /** Each entry's two tickers carry the same mark. */
  ghost predicate EntriesAgree(renames: seq<Rename>, mark: Links) {
    forall k :: 0 <= k < |renames| ==>
      renames[k].from in mark && renames[k].to in mark && mark[renames[k].from] == mark[renames[k].to]
  }

  lemma {:induction false} MarkAlongPath(renames: seq<Rename>, mark: Links, p: seq<string>)
    requires EntriesAgree(renames, mark) && IsPath(renames, p) && p[0] in mark
    ensures p[|p| - 1] in mark && mark[p[|p| - 1]] == mark[p[0]]
    decreases |p|
  {
    if |p| > 1 {
      assert Linked(renames, p[0], p[1]);
      forall i | 0 <= i < |p[1..]| - 1
        ensures Linked(renames, p[1..][i], p[1..][i + 1])
      {
        assert Linked(renames, p[i + 1], p[i + 1 + 1]);
      }
      MarkAlongPath(renames, mark, p[1..]);
    }
  }

  ghost predicate MarkedFromWithin(renames: seq<Rename>, mark: Links) {
    forall t :: t in mark ==> Connected(renames, t, mark[t])
  }

  /** Marks that entries preserve, and that every ticker is connected to, are equal exactly on
      connected tickers. */
  lemma MarksAreComponents(renames: seq<Rename>, mark: Links, x: string, y: string)
    requires EntriesAgree(renames, mark) && MarkedFromWithin(renames, mark)
    requires x in mark && y in mark
    ensures mark[x] == mark[y] <==> Connected(renames, x, y)
  {
    if mark[x] == mark[y] {
      ConnectedBack(renames, y, mark[y]);
      ConnectedThrough(renames, x, mark[x], y);
    }
    if Connected(renames, x, y) {
      var p :| PathBetween(renames, p, x, y);
      MarkAlongPath(renames, mark, p);
    }
  }

  // ----- the forest

  type Links = map<string, string>

  /** One ticker's place: its link stays in the forest and within its tree, its root is a root, and
      heights rise along links that are not self-links. */
  ghost predicate Placed(parent: Links, root: Links, rank: map<string, nat>, bound: nat, t: string) {
    && t in parent && t in root && t in rank && rank[t] <= bound
    && parent[t] in parent && parent[t] in root && parent[t] in rank
    && root[t] in parent && parent[root[t]] == root[t] && root[parent[t]] == root[t]
    && (if parent[t] == t then root[t] == t else rank[t] < rank[parent[t]])
  }

  ghost predicate GoodForest(parent: Links, root: Links, rank: map<string, nat>, bound: nat) {
    && root.Keys == parent.Keys && rank.Keys == parent.Keys
    && forall t {:trigger Placed(parent, root, rank, bound, t)} :: t in parent ==> Placed(parent, root, rank, bound, t)
  }

  lemma Settle(parent: Links, root: Links, rank: map<string, nat>, bound: nat)
    requires root.Keys == parent.Keys && rank.Keys == parent.Keys
    requires forall t :: t in root ==> Placed(parent, root, rank, bound, t)
    ensures GoodForest(parent, root, rank, bound)
  {
  }

  lemma PlaceOf(parent: Links, root: Links, rank: map<string, nat>, bound: nat, t: string)
    requires GoodForest(parent, root, rank, bound) && (t in parent || t in root)
    ensures Placed(parent, root, rank, bound, t)
  {
  }

  lemma ForestKeys(parent: Links, root: Links, rank: map<string, nat>, bound: nat)
    requires GoodForest(parent, root, rank, bound)
    ensures parent.Keys == root.Keys == rank.Keys
    ensures forall t :: t in rank ==> rank[t] <= bound
  {
    forall t | t in rank
      ensures rank[t] <= bound
    {
      assert Placed(parent, root, rank, bound, t);
    }
  }

  lemma RootsAreOwn(parent: Links, root: Links, rank: map<string, nat>, bound: nat, t: string)
    requires GoodForest(parent, root, rank, bound) && t in parent
    ensures t in root && root[t] in parent && parent[root[t]] == root[t]
    ensures parent[t] == t ==> root[t] == t
  {
    assert Placed(parent, root, rank, bound, t);
  }

  /** A new ticker is its own tree. */
  lemma Planted(parent: Links, root: Links, rank: map<string, nat>, bound: nat, t: string)
    requires GoodForest(parent, root, rank, bound) && t !in parent
    ensures GoodForest(parent[t := t], root[t := t], rank[t := 0], bound)
  {
    var p, r, h := parent[t := t], root[t := t], rank[t := 0];
    forall x | x in r
      ensures Placed(p, r, h, bound, x)
    {
      if x != t {
        PlaceOf(parent, root, rank, bound, x);
      }
    }
  }

  lemma HalvedAt(parent: Links, root: Links, rank: map<string, nat>, bound: nat, t: string, x: string)
    requires Placed(parent, root, rank, bound, t) && Placed(parent, root, rank, bound, parent[t])
    requires Placed(parent, root, rank, bound, parent[parent[t]]) && Placed(parent, root, rank, bound, x)
    requires parent[t] != t
    ensures Placed(parent[t := parent[parent[t]]], root, rank, bound, x)
  {
  }

  /** Pointing a ticker at its grandparent leaves every root as it was and brings it closer. */
  lemma Halved(parent: Links, root: Links, rank: map<string, nat>, bound: nat, t: string)
    requires GoodForest(parent, root, rank, bound) && t in parent && parent[t] != t
    ensures parent[t] in parent
    ensures var up := parent[parent[t]];
            && up in parent && t in rank && up in rank && t in root && up in root
            && rank[t] < rank[up] <= bound && root[up] == root[t]
            && GoodForest(parent[t := up], root, rank, bound)
  {
    hide GoodForest;
    ForestKeys(parent, root, rank, bound);
    PlaceOf(parent, root, rank, bound, t);
    PlaceOf(parent, root, rank, bound, parent[t]);
    var up := parent[parent[t]];
    PlaceOf(parent, root, rank, bound, up);
    var p := parent[t := up];
    assert p.Keys == parent.Keys;
    hide Placed;
    forall x | x in root
      ensures Placed(p, root, rank, bound, x)
    {
      PlaceOf(parent, root, rank, bound, x);
      HalvedAt(parent, root, rank, bound, t, x);
    }
    Settle(p, root, rank, bound);
  }

  ghost function United(mark: Links, a: string, b: string): Links {
    map t | t in mark :: if mark[t] == b then a else mark[t]
  }

  lemma JoinedAt(parent: Links, root: Links, rank: map<string, nat>, bound: nat, a: string, b: string, high: nat, top: nat, x: string)
    requires Placed(parent, root, rank, bound, a) && Placed(parent, root, rank, bound, b) && Placed(parent, root, rank, bound, x)
    requires a != b && parent[a] == a && parent[b] == b
    requires high >= rank[a] && high > rank[b] && top >= high && top >= bound
    ensures Placed(parent[b := a], United(root, a, b), rank[a := high], top, x)
  {
  }

  /** Linking one root under another unites their trees. */
  lemma Joined(parent: Links, root: Links, rank: map<string, nat>, bound: nat, a: string, b: string)
    requires GoodForest(parent, root, rank, bound) && a in parent && b in parent && a != b
    requires parent[a] == a && parent[b] == b
    ensures a in rank && b in rank
    ensures var high := if rank[a] <= rank[b] then rank[b] + 1 else rank[a];
            GoodForest(parent[b := a], United(root, a, b), rank[a := high], if bound < high then high else bound)
  {
    PlaceOf(parent, root, rank, bound, a);
    PlaceOf(parent, root, rank, bound, b);
    assert a in rank && b in rank;
    var high := if rank[a] <= rank[b] then rank[b] + 1 else rank[a];
    var top := if bound < high then high else bound;
    var p, r, h := parent[b := a], United(root, a, b), rank[a := high];
    assert p.Keys == parent.Keys && r.Keys == root.Keys && h.Keys == rank.Keys;
    hide Placed;
    forall x | x in r
      ensures Placed(p, r, h, top, x)
    {
      PlaceOf(parent, root, rank, bound, x);
      JoinedAt(parent, root, rank, bound, a, b, high, top, x);
    }
    Settle(p, r, h, top);
  }

  class Forest {
    var parent: Links
    /** The root each ticker's links lead to, and a height that rises along every link. */
    ghost var root: Links
    ghost var rank: map<string, nat>
    ghost var bound: nat

    ghost predicate Valid()
      reads this
    {
      GoodForest(parent, root, rank, bound)
    }

    constructor ()
      ensures Valid() && parent == map[] && root == map[]
    {
      parent, root, rank, bound := map[], map[], map[], 0;
    }

    /** Adds an unknown ticker as its own root, then climbs, pointing each visited ticker at its
        grandparent. No ticker's root changes. */
    method Find(ticker: string) returns (r: string)
      requires Valid()
      modifies this
      ensures Valid()
      ensures root == if ticker in old(root) then old(root) else old(root)[ticker := ticker]
      ensures ticker in root && r == root[ticker] && r in parent && parent[r] == r
    {
      hide GoodForest;
      ForestKeys(parent, root, rank, bound);
      if ticker !in parent {
        Planted(parent, root, rank, bound, ticker);
        parent, root, rank := parent[ticker := ticker], root[ticker := ticker], rank[ticker := 0];
      }
      ForestKeys(parent, root, rank, bound);
      var t := ticker;
      while parent[t] != t
        invariant Valid() && t in parent && t in root && t in rank && rank[t] <= bound
        invariant parent.Keys == root.Keys == rank.Keys
        invariant root == if ticker in old(root) then old(root) else old(root)[ticker := ticker]
        invariant ticker in root && root[t] == root[ticker]
        decreases bound - rank[t]
      {
        Halved(parent, root, rank, bound, t);
        parent := parent[t := parent[parent[t]]];
        t := parent[t];
      }
      RootsAreOwn(parent, root, rank, bound, t);
      r := t;
    }

    lemma KeysMatch()
      requires Valid()
      ensures parent.Keys == root.Keys
    {
    }

    lemma RootIsRoot(t: string)
      requires Valid() && t in root
      ensures root[t] in parent && parent[root[t]] == root[t]
    {
      ForestKeys(parent, root, rank, bound);
      RootsAreOwn(parent, root, rank, bound, t);
    }

    lemma RootsMatch()
      requires Valid()
      ensures forall t :: t in root ==> root[t] in root && root[root[t]] == root[t]
    {
      hide GoodForest;
      forall t | t in root
        ensures root[t] in root && root[root[t]] == root[t]
      {
        ForestKeys(parent, root, rank, bound);
        RootsAreOwn(parent, root, rank, bound, t);
        RootsAreOwn(parent, root, rank, bound, root[t]);
      }
    }

    /** Makes root `b` a child of root `a`: the two trees become one, rooted at `a`. */
    method Link(a: string, b: string)
      requires Valid() && a != b && a in parent && b in parent && parent[a] == a && parent[b] == b
      modifies this
      ensures Valid() && parent.Keys == old(parent.Keys)
      ensures root == United(old(root), a, b)
    {
      hide GoodForest;
      Joined(parent, root, rank, bound, a, b);
      parent := parent[b := a];
      root := United(root, a, b);
      rank := rank[a := if rank[a] <= rank[b] then rank[b] + 1 else rank[a]];
      bound := if bound < rank[a] then rank[a] else bound;
    }
  }

  ghost function Mentioned(renames: seq<Rename>): set<string> {
    if renames == [] then {}
    else Mentioned(renames[..|renames| - 1]) + {renames[|renames| - 1].from, renames[|renames| - 1].to}
  }

  lemma NewTickerMarks(renames: seq<Rename>, mark: Links, t: string)
    requires EntriesAgree(renames, mark) && MarkedFromWithin(renames, mark)
    ensures var m := if t in mark then mark else mark[t := t];
            EntriesAgree(renames, m) && MarkedFromWithin(renames, m)
  {
    ConnectedToSelf(renames, t);
  }

  /** Uniting the roots of an entry's tickers accounts for the entry and for nothing else. */
  lemma EntryUnited(renames: seq<Rename>, e: Rename, mark: Links)
    requires EntriesAgree(renames, mark) && MarkedFromWithin(renames, mark) && e.from in mark && e.to in mark
    ensures var m := United(mark, mark[e.from], mark[e.to]);
            EntriesAgree(renames + [e], m) && MarkedFromWithin(renames + [e], m)
  {
    var more := renames + [e];
    var a, b := mark[e.from], mark[e.to];
    var m := United(mark, a, b);
    assert more[|renames|] == e;
    ConnectedByEntry(more, e.to, e.from);
    ConnectedWithMore(renames, more, e.from, a);
    ConnectedWithMore(renames, more, e.to, b);
    ConnectedBack(more, e.to, b);
    ConnectedThrough(more, b, e.to, e.from);
    ConnectedThrough(more, b, e.from, a);
    forall t | t in m
      ensures Connected(more, t, m[t])
    {
      ConnectedWithMore(renames, more, t, mark[t]);
      if mark[t] == b {
        ConnectedThrough(more, t, b, a);
      }
    }
    forall k | 0 <= k < |more|
      ensures more[k].from in m && more[k].to in m && m[more[k].from] == m[more[k].to]
    {
      if k < |renames| {
        assert more[k] == renames[k];
      }
    }
  }

  lemma UnitedWithSelf(mark: Links, a: string)
    ensures United(mark, a, a) == mark
  {
  }

  /** The loop that unites the tickers of every entry. */
  method UniteEntries(renames: seq<Rename>) returns (forest: Forest)
    ensures fresh(forest) && forest.Valid()
    ensures forest.root.Keys == Mentioned(renames)
    ensures EntriesAgree(renames, forest.root) && MarkedFromWithin(renames, forest.root)
  {
    hide *;
    forest := new Forest();
    NoEntries();
    for i := 0 to |renames|
      invariant forest.Valid() && fresh(forest)
      invariant forest.root.Keys == Mentioned(renames[..i])
      invariant EntriesAgree(renames[..i], forest.root) && MarkedFromWithin(renames[..i], forest.root)
    {
      var e := renames[i];
      assert renames[..i + 1] == renames[..i] + [e];
      MentionedNext(renames, i);
      NewTickerMarks(renames[..i], forest.root, e.from);
      var a := forest.Find(e.from);
      NewTickerMarks(renames[..i], forest.root, e.to);
      var b := forest.Find(e.to);
      EntryUnited(renames[..i], e, forest.root);
      UnitedKeys(forest.root, a, b);
      forest.RootIsRoot(e.from);
      if a != b {
        forest.Link(a, b);
      } else {
        UnitedWithSelf(forest.root, a);
      }
    }
    assert renames[..|renames|] == renames;
  }

  /** Looks every ticker up; the lookups still halve paths, and still change no root. */
  method LookUpAll(forest: Forest) returns (roots: Links)
    requires forest.Valid()
    modifies forest
    ensures roots == old(forest.root)
  {
    hide *;
    forest.KeysMatch();
    roots := map[];
    var left := forest.parent.Keys;
    while left != {}
      invariant forest.Valid() && forest.root == old(forest.root)
      invariant left <= forest.root.Keys && roots.Keys == forest.root.Keys - left
      invariant forall t :: t in roots ==> roots[t] == forest.root[t]
      decreases |left|
    {
      var t :| t in left;
      var r := forest.Find(t);
      roots := roots[t := r];
      left := left - {t};
    }
  }

  /** The result covers exactly the tickers mentioned, each with a root in its own chain, and gives
      two tickers the same root exactly when a chain of entries connects them. */
  method ChainRoots(renames: seq<Rename>) returns (roots: Links)
    ensures roots.Keys == Mentioned(renames)
    ensures forall t :: t in roots ==> roots[t] in roots && roots[roots[t]] == roots[t] && Connected(renames, t, roots[t])
    ensures forall x, y :: x in roots && y in roots ==> (roots[x] == roots[y] <==> Connected(renames, x, y))
  {
    var forest := UniteEntries(renames);
    forest.RootsMatch();
    roots := LookUpAll(forest);
    hide *;
    forall x, y | x in roots && y in roots
      ensures roots[x] == roots[y] <==> Connected(renames, x, y)
    {
      MarksAreComponents(renames, roots, x, y);
    }
    forall t | t in roots
      ensures Connected(renames, t, roots[t])
    {
      MarkedMember(renames, roots, t);
    }
  }

  lemma NoEntries()
    ensures EntriesAgree([], map[]) && MarkedFromWithin([], map[]) && Mentioned([]) == {}
  {
  }

  lemma MarkedMember(renames: seq<Rename>, mark: Links, t: string)
    requires MarkedFromWithin(renames, mark) && t in mark
    ensures Connected(renames, t, mark[t])
  {
  }

  lemma UnitedKeys(mark: Links, a: string, b: string)
    ensures United(mark, a, b).Keys == mark.Keys
  {
  }

  lemma MentionedNext(renames: seq<Rename>, i: nat)
    requires i < |renames|
    ensures Mentioned(renames[..i + 1]) == Mentioned(renames[..i]) + {renames[i].from, renames[i].to}
  {
    assert renames[..i + 1][..i] == renames[..i];
  }
}
