/** Stable sorting of sequences by a total preorder, and of finite sets of integers.

    `SortBy` stands for the library's stable sort: a permutation, in order, with equal keys in input
    order. `Ascending` lists a finite set in increasing order. */
module Sorting {

  ghost predicate TotalPreorder<T(!new)>(leq: (T, T) -> bool) {
    && (forall x, y :: leq(x, y) || leq(y, x))
    && (forall x, y, z :: leq(x, y) && leq(y, z) ==> leq(x, z))
  }

  ghost predicate Sorted<T>(s: seq<T>, leq: (T, T) -> bool) {
    forall i, j :: 0 <= i < j < |s| ==> leq(s[i], s[j])
  }

  /** Puts `x` before the first element it does not exceed, so equal keys keep their order. */
  function Insert<T>(x: T, s: seq<T>, leq: (T, T) -> bool): (r: seq<T>)
    ensures multiset(r) == multiset{x} + multiset(s)
    ensures |r| == |s| + 1
  {
    if s == [] || leq(x, s[0]) then [x] + s
    else
      assert s == [s[0]] + s[1..];
      [s[0]] + Insert(x, s[1..], leq)
  }

  function SortBy<T>(s: seq<T>, leq: (T, T) -> bool): (r: seq<T>)
    ensures multiset(r) == multiset(s)
    ensures |r| == |s|
  {
    if s == [] then []
    else
      assert s == [s[0]] + s[1..];
      Insert(s[0], SortBy(s[1..], leq), leq)
  }

  lemma SameElements<T>(r: seq<T>, s: seq<T>)
    requires multiset(r) == multiset(s)
    ensures forall x :: x in r <==> x in s
  {
    forall x
      ensures x in r <==> x in s
    {
      assert x in r <==> x in multiset(r);
    }
  }

  /** The first element of one arrangement, taken out of another. */
  lemma TakeOut<T>(s: seq<T>, t: seq<T>) returns (a: seq<T>, b: seq<T>)
    requires s != [] && multiset(s) == multiset(t)
    ensures t == a + [s[0]] + b && multiset(s[1..]) == multiset(a + b)
  {
    assert s[0] in multiset(t);
    var k :| 0 <= k < |t| && t[k] == s[0];
    a, b := t[..k], t[k + 1..];
    assert t == a + [s[0]] + b;
    assert s == [s[0]] + s[1..];
    assert multiset(s[1..]) == multiset(s) - multiset{s[0]};
    assert multiset(a + b) == multiset(t) - multiset{s[0]};
  }

  ghost predicate NoDuplicates<T>(s: seq<T>) {
    forall i, j :: 0 <= i < j < |s| ==> s[i] != s[j]
  }

  lemma TwiceCounted<T>(s: seq<T>, i: int, j: int)
    requires 0 <= i < j < |s| && s[i] == s[j]
    ensures multiset(s)[s[i]] >= 2
  {
    assert s == s[..j] + [s[j]] + s[j + 1..];
    assert s[i] == s[..j][i];
    assert multiset(s) == multiset(s[..j]) + multiset{s[j]} + multiset(s[j + 1..]);
  }

  lemma CountedOnce<T>(s: seq<T>, k: int)
    requires 0 <= k < |s| && NoDuplicates(s)
    ensures multiset(s)[s[k]] == 1
  {
    var x := s[k];
    assert s == s[..k] + [x] + s[k + 1..];
    assert x !in s[..k] && x !in s[k + 1..];
    assert multiset(s) == multiset(s[..k]) + multiset{x} + multiset(s[k + 1..]);
  }

  /** A rearrangement of a list without duplicates has none. */
  lemma RearrangedNoDuplicates<T>(r: seq<T>, s: seq<T>)
    requires multiset(r) == multiset(s) && NoDuplicates(s)
    ensures NoDuplicates(r)
  {
    forall i, j | 0 <= i < j < |r|
      ensures r[i] != r[j]
    {
      assert r[i] in multiset(s);
      var k :| 0 <= k < |s| && s[k] == r[i];
      CountedOnce(s, k);
      if r[i] == r[j] {
        TwiceCounted(r, i, j);
      }
    }
  }

  lemma {:induction false} InsertSorted<T(!new)>(x: T, s: seq<T>, leq: (T, T) -> bool)
    requires TotalPreorder(leq) && Sorted(s, leq)
    ensures Sorted(Insert(x, s, leq), leq)
  {
    if s == [] {
    } else if leq(x, s[0]) {
      forall i | 0 <= i < |s|
        ensures leq(x, s[i])
      {
        assert i == 0 || leq(s[0], s[i]);
      }
    } else {
      var t := Insert(x, s[1..], leq);
      InsertSorted(x, s[1..], leq);
      forall i | 0 <= i < |t|
        ensures leq(s[0], t[i])
      {
        assert t[i] in multiset(t);
        assert t[i] == x || t[i] in s[1..];
      }
    }
  }

  /** The result is in order, whatever total preorder is used. */
  lemma {:induction false} SortedSortBy<T(!new)>(s: seq<T>, leq: (T, T) -> bool)
    requires TotalPreorder(leq)
    ensures Sorted(SortBy(s, leq), leq)
  {
    if s != [] {
      SortedSortBy(s[1..], leq);
      InsertSorted(s[0], SortBy(s[1..], leq), leq);
    }
  }

  /** The sorted list starts with the earliest of the least elements. */
  lemma {:induction false} StableHead<T(!new)>(s: seq<T>, leq: (T, T) -> bool) returns (m: nat)
    requires s != [] && TotalPreorder(leq)
    ensures m < |s| && SortBy(s, leq)[0] == s[m]
    ensures forall k :: 0 <= k < |s| ==> leq(s[m], s[k])
    ensures forall k :: 0 <= k < m ==> !leq(s[k], s[m])
  {
    if |s| == 1 {
      m := 0;
      Reflexive(leq, s[0]);
    } else {
      var p := StableHead(s[1..], leq);
      HeadOfInsert(s, leq, p);
      m := if leq(s[0], s[p + 1]) then 0 else p + 1;
    }
  }

  lemma Reflexive<T(!new)>(leq: (T, T) -> bool, x: T)
    requires TotalPreorder(leq)
    ensures leq(x, x)
  {
  }

  lemma Transitive<T(!new)>(leq: (T, T) -> bool, x: T, y: T, z: T)
    requires TotalPreorder(leq) && leq(x, y) && leq(y, z)
    ensures leq(x, z)
  {
  }

  lemma Total<T(!new)>(leq: (T, T) -> bool, x: T, y: T)
    requires TotalPreorder(leq) && !leq(x, y)
    ensures leq(y, x)
  {
  }

  lemma SortStep<T>(s: seq<T>, leq: (T, T) -> bool)
    requires |s| > 1
    ensures SortBy(s, leq)[0] == if leq(s[0], SortBy(s[1..], leq)[0]) then s[0] else SortBy(s[1..], leq)[0]
  {
  }

  lemma HeadOfInsert<T(!new)>(s: seq<T>, leq: (T, T) -> bool, p: nat)
    requires |s| > 1 && TotalPreorder(leq) && p + 1 < |s|
    requires SortBy(s[1..], leq)[0] == s[1..][p]
    requires forall k :: 0 <= k < |s[1..]| ==> leq(s[1..][p], s[1..][k])
    requires forall k :: 0 <= k < p ==> !leq(s[1..][k], s[1..][p])
    ensures var m := if leq(s[0], s[p + 1]) then 0 else p + 1;
            && SortBy(s, leq)[0] == s[m]
            && (forall k :: 0 <= k < |s| ==> leq(s[m], s[k]))
            && (forall k :: 0 <= k < m ==> !leq(s[k], s[m]))
  {
    hide TotalPreorder;
    hide SortBy;
    SortStep(s, leq);
    Reflexive(leq, s[0]);
    var least := s[p + 1];
    forall k | 0 < k < |s|
      ensures leq(least, s[k]) && (k < p + 1 ==> !leq(s[k], least))
    {
      assert s[k] == s[1..][k - 1];
    }
    if leq(s[0], least) {
      forall k | 0 < k < |s|
        ensures leq(s[0], s[k])
      {
        Transitive(leq, s[0], least, s[k]);
      }
    } else {
      Total(leq, s[0], least);
    }
  }

  lemma {:induction false} InsertAt<T>(x: T, s: seq<T>, leq: (T, T) -> bool) returns (p: nat)
    ensures p <= |s| && Insert(x, s, leq) == s[..p] + [x] + s[p..]
  {
    if s == [] || leq(x, s[0]) {
      p := 0;
    } else {
      p := InsertAt(x, s[1..], leq);
      assert s[..p + 1] == [s[0]] + s[1..][..p];
      p := p + 1;
    }
  }

  lemma ConsAround<T>(x: T, a: seq<T>, e: T, b: seq<T>)
    ensures [x] + (a + [e] + b) == ([x] + a) + [e] + b && [x] + (a + b) == ([x] + a) + b
  {
  }

  lemma TailAround<T>(a: seq<T>, e: T, b: seq<T>)
    ensures a != [] ==> (a + [e] + b)[0] == a[0] && (a + [e] + b)[1..] == a[1..] + [e] + b
    ensures a != [] ==> (a + b)[0] == a[0] && (a + b)[1..] == a[1..] + b
    ensures a == [] ==> a + [e] + b == [e] + b && ([e] + b)[1..] == b && a + b == b
  {
  }

  lemma InsertStep<T>(x: T, s: seq<T>, leq: (T, T) -> bool)
    ensures Insert(x, s, leq) == if s == [] || leq(x, s[0]) then [x] + s else [s[0]] + Insert(x, s[1..], leq)
  {
  }

  /** Inserting into a sorted list with an element left out, and inserting and then leaving it out. */
  lemma {:induction false} InsertAround<T(!new)>(x: T, u: seq<T>, e: T, v: seq<T>, leq: (T, T) -> bool) returns (a: seq<T>, b: seq<T>)
    requires TotalPreorder(leq) && Sorted(u + [e] + v, leq)
    ensures Insert(x, u + [e] + v, leq) == a + [e] + b && Insert(x, u + v, leq) == a + b
    decreases |u|
  {
    hide TotalPreorder;
    hide Insert;
    var s := u + [e] + v;
    InsertStep(x, s, leq);
    InsertStep(x, u + v, leq);
    TailAround(u, e, v);
    if u == [] {
      if leq(x, e) {
        a, b := [x], v;
        if v != [] {
          assert leq(s[0], s[1]) && s[1] == v[0];
          Transitive(leq, x, e, v[0]);
        }
        ConsAround(x, [], e, v);
      } else {
        a, b := [], Insert(x, v, leq);
        TailAround([], e, b);
      }
    } else if leq(x, u[0]) {
      a, b := [x] + u, v;
      ConsAround(x, u, e, v);
    } else {
      TailSorted(s, leq);
      hide Sorted;
      a, b := InsertAround(x, u[1..], e, v, leq);
      ConsAround(u[0], a, e, b);
      a := [u[0]] + a;
    }
  }

  lemma TailSorted<T>(s: seq<T>, leq: (T, T) -> bool)
    requires s != [] && Sorted(s, leq)
    ensures Sorted(s[1..], leq)
  {
  }

  lemma SortByStep<T>(s: seq<T>, leq: (T, T) -> bool)
    requires s != []
    ensures SortBy(s, leq) == Insert(s[0], SortBy(s[1..], leq), leq)
  {
  }

  /** Leaving one element out of the input leaves it out of the sorted list. */
  lemma {:induction false} SortWithout<T(!new)>(s: seq<T>, e: T, t: seq<T>, leq: (T, T) -> bool) returns (u: seq<T>, v: seq<T>)
    requires TotalPreorder(leq)
    ensures SortBy(s + [e] + t, leq) == u + [e] + v && SortBy(s + t, leq) == u + v
    decreases |s|
  {
    hide TotalPreorder;
    hide SortBy;
    hide Insert;
    hide Sorted;
    TailAround(s, e, t);
    SortByStep(s + [e] + t, leq);
    if s == [] {
      var sorted := SortBy(t, leq);
      var p := InsertAt(e, sorted, leq);
      u, v := sorted[..p], sorted[p..];
      assert u + v == sorted;
    } else {
      SortByStep(s + t, leq);
      u, v := SortWithout(s[1..], e, t, leq);
      SortedSortBy(s[1..] + [e] + t, leq);
      u, v := InsertAround(s[0], u, e, v, leq);
    }
  }

  /** Sorting a list with one element added at the end puts it after its equals. */
  lemma {:induction false} SortAppended<T(!new)>(s: seq<T>, z: T, leq: (T, T) -> bool) returns (u: seq<T>, v: seq<T>)
    requires TotalPreorder(leq)
    ensures SortBy(s + [z], leq) == u + [z] + v && SortBy(s, leq) == u + v
    ensures forall x :: x in u ==> leq(x, z)
    ensures forall x :: x in v ==> !leq(x, z)
    decreases |s|
  {
    if s == [] {
      u, v := [], [];
      assert s + [z] == [z] && [z][1..] == [] && [] + [z] + [] == [z];
    } else {
      assert (s + [z])[1..] == s[1..] + [z];
      SortByStep(s + [z], leq);
      SortByStep(s, leq);
      hide SortBy;
      hide TotalPreorder;
      hide Insert;
      u, v := SortAppended(s[1..], z, leq);
      u, v := InsertAppended(s[0], u, z, v, leq);
    }
  }

  ghost predicate AllUpTo<T(!new)>(s: seq<T>, z: T, leq: (T, T) -> bool) {
    forall y :: y in s ==> leq(y, z)
  }

  ghost predicate AllAfter<T(!new)>(s: seq<T>, z: T, leq: (T, T) -> bool) {
    forall y :: y in s ==> !leq(y, z)
  }

  lemma InsertAfter<T(!new)>(x: T, v: seq<T>, z: T, leq: (T, T) -> bool)
    requires !leq(x, z) && AllAfter(v, z, leq)
    ensures AllAfter(Insert(x, v, leq), z, leq)
  {
    forall y | y in Insert(x, v, leq)
      ensures !leq(y, z)
    {
      assert y in multiset(Insert(x, v, leq));
    }
  }

  lemma InsertNearest<T(!new)>(x: T, z: T, v: seq<T>, leq: (T, T) -> bool) returns (a: seq<T>, b: seq<T>)
    requires TotalPreorder(leq) && AllAfter(v, z, leq)
    ensures Insert(x, [z] + v, leq) == a + [z] + b && Insert(x, v, leq) == a + b
    ensures AllUpTo(a, z, leq) && AllAfter(b, z, leq)
  {
    hide TotalPreorder;
    hide Insert;
    InsertStep(x, [z] + v, leq);
    TailAround([], z, v);
    if leq(x, z) {
      a, b := [x], v;
      InsertStep(x, v, leq);
      if v != [] {
        assert v[0] in v;
        Total(leq, v[0], z);
        Transitive(leq, x, z, v[0]);
      }
      ConsAround(x, [], z, v);
    } else {
      a, b := [], Insert(x, v, leq);
      TailAround([], z, b);
      InsertAfter(x, v, z, leq);
    }
  }

  lemma UpToMore<T(!new)>(x: T, u: seq<T>, z: T, leq: (T, T) -> bool)
    requires leq(x, z) && AllUpTo(u, z, leq)
    ensures AllUpTo([x] + u, z, leq)
  {
  }

  lemma UpToParts<T(!new)>(u: seq<T>, z: T, leq: (T, T) -> bool)
    requires u != [] && AllUpTo(u, z, leq)
    ensures leq(u[0], z) && AllUpTo(u[1..], z, leq)
  {
  }

  lemma {:induction false} InsertAppended<T(!new)>(x: T, u: seq<T>, z: T, v: seq<T>, leq: (T, T) -> bool) returns (a: seq<T>, b: seq<T>)
    requires TotalPreorder(leq) && AllUpTo(u, z, leq) && AllAfter(v, z, leq)
    ensures Insert(x, u + [z] + v, leq) == a + [z] + b && Insert(x, u + v, leq) == a + b
    ensures AllUpTo(a, z, leq) && AllAfter(b, z, leq)
    decreases |u|
  {
    hide *;
    TailAround(u, z, v);
    if u == [] {
      a, b := InsertNearest(x, z, v, leq);
    } else {
      UpToParts(u, z, leq);
      InsertStep(x, u + [z] + v, leq);
      InsertStep(x, u + v, leq);
      if leq(x, u[0]) {
        a, b := [x] + u, v;
        Transitive(leq, x, u[0], z);
        UpToMore(x, u, z, leq);
        ConsAround(x, u, z, v);
      } else {
        a, b := InsertAppended(x, u[1..], z, v, leq);
        ConsAround(u[0], a, z, b);
        UpToMore(u[0], a, z, leq);
        a := [u[0]] + a;
      }
    }
  }

  lemma AnyMember<T>(s: set<T>) returns (x: T)
    requires s != {}
    ensures x in s
  {
    x :| x in s;
  }

  predicate IsLeast(x: int, s: set<int>) {
    x in s && forall y :: y in s ==> x <= y
  }

  lemma {:induction false} LeastExists(s: set<int>)
    requires |s| > 0
    ensures exists x :: IsLeast(x, s)
  {
    var x := AnyMember(s);
    if s == {x} {
      assert IsLeast(x, s);
    } else {
      var t := s - {x};
      assert s == t + {x};
      LeastExists(t);
      var z :| IsLeast(z, t);
      assert IsLeast(if x <= z then x else z, s);
    }
  }

  /** The members of a finite set of integers in increasing order. */
  function Ascending(s: set<int>): seq<int> {
    if |s| == 0 then []
    else
      LeastExists(s);
      var x :| IsLeast(x, s);
      [x] + Ascending(s - {x})
  }

  lemma {:induction false} AscendingProperties(s: set<int>)
    ensures forall x :: x in Ascending(s) <==> x in s
    ensures forall i, j :: 0 <= i < j < |Ascending(s)| ==> Ascending(s)[i] < Ascending(s)[j]
    ensures |Ascending(s)| == |s|
    decreases |s|
  {
    if |s| != 0 {
      LeastExists(s);
      var x :| IsLeast(x, s) && Ascending(s) == [x] + Ascending(s - {x});
      var t := s - {x};
      AscendingProperties(t);
      assert forall y :: y in s <==> y == x || y in t;
      var r := Ascending(t);
      forall i, j | 0 <= i < j < |Ascending(s)|
        ensures Ascending(s)[i] < Ascending(s)[j]
      {
        assert r[j - 1] in r;
      }
    }
  }
}
